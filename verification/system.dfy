/** The ledger object: users, trains in insertion order, bookings, the next train number and
    the logged-in user, with the operations that read and update them. */
module TicketSystem {
  import opened Wrappers
  import opened Accounts
  import opened Catalog
  import opened Ledger

  /** The failures each operation reports instead of changing state. */
  datatype Error =
    | InvalidEmailFormat
    | EmailAlreadyRegistered
    | EmailNotRegistered
    | IncorrectPassword
    | OnlyAdminCanAddTrains
    | InvalidNumber           // a seat or availability field that `int` rejects
    | InvalidTrainId
    | NotEnoughSeats
    | BookingNotFound         // no booking of this user and train with enough seats

  /** The outcome of an operation that reports success or one failure. */
  datatype Status = Success | Failure(error: Error)

  /** `search_trains`: the matching trains, or the distinct "No trains available" answer. */
  datatype SearchResult = NoTrainsAvailable | TrainsFound(hits: seq<(string, Train)>)

  /** `generate_report`: the lines, or the distinct "No bookings found." answer. */
  datatype Report = NoBookingsFound | BookingLines(lines: seq<ReportLine>)

  ghost predicate BookingsOnKnownTrains(bookings: seq<Booking>, trains: map<string, Train>) {
    forall b :: b in bookings ==> b.trainId in trains
  }

  /** Capacity conservation: each train's availability plus the seats booked on it equals the
      availability it was added with. */
  ghost predicate SeatsConserved(trains: map<string, Train>, bookings: seq<Booking>, created: map<string, int>) {
    created.Keys == trains.Keys &&
    forall k :: k in trains ==> trains[k].availability + BookedSeats(bookings, k) == created[k]
  }

  /** The ledger invariant over the object's fields. */
  ghost predicate LedgerInvariant(trains: map<string, Train>, order: seq<string>, next: nat,
                                  bookings: seq<Booking>, created: map<string, int>) {
    CatalogInvariant(trains, order, next) &&
    BookingsOnKnownTrains(bookings, trains) &&
    SeatsConserved(trains, bookings, created)
  }

  /** A successful booking keeps the invariant: the seats leave the train's availability and
      reappear in the appended booking. */
  lemma BookKeepsInvariant(trains: map<string, Train>, order: seq<string>, next: nat,
                           bookings: seq<Booking>, created: map<string, int>,
                           user: Option<string>, trainId: string, seats: int)
    requires LedgerInvariant(trains, order, next, bookings, created) && trainId in trains
    ensures LedgerInvariant(trains[trainId := trains[trainId].(availability := trains[trainId].availability - seats)],
                            order, next, bookings + [Booking(user, trainId, seats)], created)
  {
    var trains' := trains[trainId := trains[trainId].(availability := trains[trainId].availability - seats)];
    var b := Booking(user, trainId, seats);
    CatalogInvariantOfSameKeys(trains, trains', order, next);
    forall k | k in trains' ensures trains'[k].availability + BookedSeats(bookings + [b], k) == created[k] {
      BookedSeatsAppend(bookings, b, k);
    }
  }

  /** A successful cancellation of booking `i` keeps the invariant: the seats leave the booking
      and reappear in the train's availability. */
  lemma CancelKeepsInvariant(trains: map<string, Train>, order: seq<string>, next: nat,
                             bookings: seq<Booking>, created: map<string, int>, i: nat, seats: int)
    requires LedgerInvariant(trains, order, next, bookings, created) && i < |bookings|
    ensures bookings[i].trainId in trains
    ensures var t := trains[bookings[i].trainId];
      LedgerInvariant(trains[bookings[i].trainId := t.(availability := t.availability + seats)],
                      order, next, ApplyCancel(bookings, i, seats), created)
  {
    var trainId := bookings[i].trainId;
    assert bookings[i] in bookings;
    var t := trains[trainId];
    var trains' := trains[trainId := t.(availability := t.availability + seats)];
    var bookings' := ApplyCancel(bookings, i, seats);
    CatalogInvariantOfSameKeys(trains, trains', order, next);
    forall k | k in trains' ensures trains'[k].availability + BookedSeats(bookings', k) == created[k] {
      ApplyCancelSeats(bookings, i, seats, k);
    }
  }

  /** Adding a train under the next id keeps the invariant; no booking refers to the new key. */
  lemma AddKeepsInvariant(trains: map<string, Train>, order: seq<string>, next: nat,
                          bookings: seq<Booking>, created: map<string, int>, t: Train)
    requires LedgerInvariant(trains, order, next, bookings, created)
    ensures TrainKey(next) !in trains
    ensures LedgerInvariant(trains[TrainKey(next) := t], order + [TrainKey(next)], next + 1,
                            bookings, created[TrainKey(next) := t.availability])
  {
    AddKeepsCatalogInvariant(trains, order, next, t);
    BookedSeatsOfUnbookedTrain(bookings, TrainKey(next));
  }

  /** Two states that conserve the same creation seat counts agree, train by train, on
      availability plus booked seats. */
  lemma SameTotals(trains: map<string, Train>, bookings: seq<Booking>,
                   trains': map<string, Train>, bookings': seq<Booking>, created: map<string, int>)
    requires SeatsConserved(trains, bookings, created) && SeatsConserved(trains', bookings', created)
    ensures trains'.Keys == trains.Keys
    ensures forall k :: k in trains' ==>
      trains'[k].availability + BookedSeats(bookings', k) == trains[k].availability + BookedSeats(bookings, k)
  {
  }

  predicate NoNegativeAvailability(trains: map<string, Train>) {
    forall k :: k in trains ==> trains[k].availability >= 0
  }

  class TrainTicketSystem {
    var users: map<string, User>
    var trains: map<string, Train>
    /** The keys of `trains` in insertion order (the dictionary's iteration order). */
    var trainOrder: seq<string>
    var bookings: seq<Booking>
    var nextTrainId: nat
    var currentUser: Option<string>
    /** The availability each train was added with. */
    ghost var seatsAtCreation: map<string, int>

    ghost predicate Valid()
      reads this
    {
      LedgerInvariant(trains, trainOrder, nextTrainId, bookings, seatsAtCreation)
    }

    /** The state a first start (no saved data) produces: only the built-in admin account,
        no trains, no bookings, allocation from `Train-1`, nobody logged in. */
    constructor ()
      ensures Valid()
      ensures users == map[AdminEmail := User(AdminPassword, map[])]
      ensures trains == map[] && trainOrder == [] && bookings == []
      ensures nextTrainId == 1 && currentUser == None
    {
      users := map[AdminEmail := User(AdminPassword, map[])];
      trains := map[];
      trainOrder := [];
      bookings := [];
      seatsAtCreation := map[];
      var next := ComputeNextTrainId([]);
      nextTrainId := next.value;
      currentUser := None;
    }

    method RegisterUser(email: string, password: string) returns (r: Status)
      requires Valid()
      modifies this`users
      ensures Valid()
      ensures !IsValidEmail(email) ==> r == Failure(InvalidEmailFormat)
      ensures IsValidEmail(email) && email in old(users) ==> r == Failure(EmailAlreadyRegistered)
      ensures r.Success? <==> IsValidEmail(email) && email !in old(users)
      ensures users == if r.Success? then old(users)[email := User(password, map[])] else old(users)
    {
      if !IsValidEmail(email) {
        return Failure(InvalidEmailFormat);
      }
      if email in users {
        return Failure(EmailAlreadyRegistered);
      }
      users := users[email := User(password, map[])];
      r := Success;
    }

    method LoginUser(email: string, password: string) returns (r: Status)
      requires Valid()
      modifies this`currentUser
      ensures Valid()
      ensures !IsValidEmail(email) ==> r == Failure(InvalidEmailFormat)
      ensures IsValidEmail(email) && email !in users ==> r == Failure(EmailNotRegistered)
      ensures IsValidEmail(email) && email in users && users[email].password != password ==>
        r == Failure(IncorrectPassword)
      ensures r.Success? <==> IsValidEmail(email) && email in users && users[email].password == password
      ensures currentUser == if r.Success? then Some(email) else old(currentUser)
    {
      if !IsValidEmail(email) {
        return Failure(InvalidEmailFormat);
      }
      if email !in users {
        return Failure(EmailNotRegistered);
      }
      if users[email].password == password {
        currentUser := Some(email);
        r := Success;
      } else {
        r := Failure(IncorrectPassword);
      }
    }

    method Logout()
      requires Valid()
      modifies this`currentUser
      ensures Valid() && currentUser == None
    {
      currentUser := None;
    }

    method AddTrain(source: string, destination: string, availability: Option<int>, timings: string, price: string)
      returns (r: Result<string, Error>)
      requires Valid()
      modifies this`trains, this`trainOrder, this`nextTrainId, this`seatsAtCreation
      ensures Valid()
      ensures currentUser != Some(AdminEmail) ==> r == Err(OnlyAdminCanAddTrains)
      ensures currentUser == Some(AdminEmail) && availability.None? ==> r == Err(InvalidNumber)
      ensures r.Ok? <==> currentUser == Some(AdminEmail) && availability.Some?
      ensures r.Err? ==> trains == old(trains) && trainOrder == old(trainOrder) && nextTrainId == old(nextTrainId)
      ensures r.Ok? ==>
        r.value == TrainKey(old(nextTrainId)) && r.value !in old(trains) &&
        trains == old(trains)[r.value := Train((source, destination), availability.value, timings, price)] &&
        trainOrder == old(trainOrder) + [r.value] &&
        nextTrainId == old(nextTrainId) + 1
    {
      if currentUser != Some(AdminEmail) {
        return Err(OnlyAdminCanAddTrains);
      }
      if availability.None? {
        return Err(InvalidNumber);
      }
      var id := TrainKey(nextTrainId);
      var t := Train((source, destination), availability.value, timings, price);
      AddKeepsInvariant(trains, trainOrder, nextTrainId, bookings, seatsAtCreation, t);
      trains := trains[id := t];
      trainOrder := trainOrder + [id];
      seatsAtCreation := seatsAtCreation[id := availability.value];
      nextTrainId := nextTrainId + 1;
      r := Ok(id);
    }

    method SearchTrains(source: string, destination: string) returns (r: SearchResult)
      requires Valid()
      ensures r.NoTrainsAvailable? <==> forall k :: k in trains ==> trains[k].route != (source, destination)
      ensures r.TrainsFound? ==> r.hits == SearchSpec(trains, trainOrder, source, destination)
    {
      var hits: seq<(string, Train)> := [];
      for i := 0 to |trainOrder|
        invariant hits == SearchSpec(trains, trainOrder[..i], source, destination)
      {
        var id := trainOrder[i];
        assert trainOrder[..i + 1][..i] == trainOrder[..i];
        if id in trains && trains[id].route == (source, destination) {
          hits := hits + [(id, trains[id])];
        }
      }
      assert trainOrder[..|trainOrder|] == trainOrder;
      SearchEmptyIffNoRoute(trains, trainOrder, nextTrainId, source, destination);
      r := if |hits| == 0 then NoTrainsAvailable else TrainsFound(hits);
    }

    method BookTicket(trainId: string, seats: Option<int>) returns (r: Status)
      requires Valid()
      modifies this`trains, this`bookings
      ensures Valid()
      ensures seats.None? ==> r == Failure(InvalidNumber)
      ensures seats.Some? && trainId !in old(trains) ==> r == Failure(InvalidTrainId)
      ensures seats.Some? && trainId in old(trains) && old(trains)[trainId].availability < seats.value ==>
        r == Failure(NotEnoughSeats)
      ensures r.Success? <==> seats.Some? && trainId in old(trains) && old(trains)[trainId].availability >= seats.value
      ensures r.Failure? ==> trains == old(trains) && bookings == old(bookings)
      ensures r.Success? ==>
        trains == old(trains)[trainId := old(trains)[trainId].(availability := old(trains)[trainId].availability - seats.value)] &&
        bookings == old(bookings) + [Booking(currentUser, trainId, seats.value)]
      ensures trains.Keys == old(trains).Keys
      ensures forall k :: k in trains ==>
        trains[k].availability + BookedSeats(bookings, k) == old(trains)[k].availability + BookedSeats(old(bookings), k)
      ensures NoNegativeAvailability(old(trains)) ==> NoNegativeAvailability(trains)
    {
      if seats.None? {
        r := Failure(InvalidNumber);
      } else if trainId !in trains {
        r := Failure(InvalidTrainId);
      } else if trains[trainId].availability < seats.value {
        r := Failure(NotEnoughSeats);
      } else {
        var n, t := seats.value, trains[trainId];
        BookKeepsInvariant(trains, trainOrder, nextTrainId, bookings, seatsAtCreation, currentUser, trainId, n);
        ghost var trains0, bookings0 := trains, bookings;
        trains := trains[trainId := t.(availability := t.availability - n)];
        bookings := bookings + [Booking(currentUser, trainId, n)];
        SameTotals(trains0, bookings0, trains, bookings, seatsAtCreation);
        r := Success;
      }
    }

    method CancelTicket(trainId: string, seats: Option<int>) returns (r: Status)
      requires Valid()
      modifies this`trains, this`bookings
      ensures Valid()
      ensures seats.None? ==> r == Failure(InvalidNumber)
      ensures seats.Some? && FirstCancellable(old(bookings), currentUser, trainId, seats.value).None? ==>
        r == Failure(BookingNotFound)
      ensures r.Success? <==> seats.Some? && FirstCancellable(old(bookings), currentUser, trainId, seats.value).Some?
      ensures r.Failure? ==> trains == old(trains) && bookings == old(bookings)
      ensures r.Success? ==>
        seats.Some? && FirstCancellable(old(bookings), currentUser, trainId, seats.value).Some? &&
        trainId in old(trains) &&
        trains == old(trains)[trainId := old(trains)[trainId].(availability := old(trains)[trainId].availability + seats.value)] &&
        bookings == ApplyCancel(old(bookings), FirstCancellable(old(bookings), currentUser, trainId, seats.value).value, seats.value)
      ensures trains.Keys == old(trains).Keys
      ensures forall k :: k in trains ==>
        trains[k].availability + BookedSeats(bookings, k) == old(trains)[k].availability + BookedSeats(old(bookings), k)
      ensures NoNegativeAvailability(old(trains)) && (seats.None? || seats.value >= 0) ==>
        NoNegativeAvailability(trains)
    {
      if seats.None? {
        r := Failure(InvalidNumber);
      } else {
        var n := seats.value;
        var found := FindCancellable(trainId, n);
        if found.None? {
          r := Failure(BookingNotFound);
        } else {
          var i := found.value;
          CommitCancel(i, n);
          r := Success;
        }
      }
    }

    /** The update of `cancel_ticket` once booking `i` is chosen: the seats go back to the train
        and the booking loses them, leaving the list when it reaches zero. */
    method CommitCancel(i: nat, seats: int)
      requires Valid() && i < |bookings|
      modifies this`trains, this`bookings
      ensures Valid()
      ensures old(bookings)[i].trainId in old(trains)
      ensures var id := old(bookings)[i].trainId;
        trains == old(trains)[id := old(trains)[id].(availability := old(trains)[id].availability + seats)]
      ensures bookings == ApplyCancel(old(bookings), i, seats)
      ensures trains.Keys == old(trains).Keys
      ensures forall k :: k in trains ==>
        trains[k].availability + BookedSeats(bookings, k) == old(trains)[k].availability + BookedSeats(old(bookings), k)
      ensures NoNegativeAvailability(old(trains)) && seats >= 0 ==> NoNegativeAvailability(trains)
    {
      var trainId := bookings[i].trainId;
      CancelKeepsInvariant(trains, trainOrder, nextTrainId, bookings, seatsAtCreation, i, seats);
      var t := trains[trainId];
      var trains' := trains[trainId := t.(availability := t.availability + seats)];
      var bookings' := ApplyCancel(bookings, i, seats);
      SameTotals(trains, bookings, trains', bookings', seatsAtCreation);
      trains, bookings := trains', bookings';
    }

    /** The scan of `cancel_ticket`: the first booking, in list order, of the logged-in user on
        `trainId` holding at least `seats` seats. */
    method FindCancellable(trainId: string, seats: int) returns (found: Option<nat>)
      ensures found == FirstCancellable(bookings, currentUser, trainId, seats)
    {
      var i := 0;
      while i < |bookings|
        invariant 0 <= i <= |bookings|
        invariant forall j :: 0 <= j < i ==> !Cancellable(bookings[j], currentUser, trainId, seats)
      {
        var b := bookings[i];
        if b.userEmail == currentUser && b.trainId == trainId && b.seats >= seats {
          return Some(i);
        }
        i := i + 1;
      }
      found := None;
    }

    method GenerateReport() returns (r: Report)
      ensures r.NoBookingsFound? <==> forall i :: 0 <= i < |bookings| ==> !Reported(bookings[i], trains, currentUser)
      ensures r.BookingLines? ==> r.lines == ReportSpec(bookings, trains, currentUser)
    {
      var lines: seq<ReportLine> := [];
      for i := 0 to |bookings|
        invariant lines == ReportSpec(bookings[..i], trains, currentUser)
      {
        var b := bookings[i];
        assert bookings[..i + 1][..i] == bookings[..i];
        if b.userEmail == currentUser && b.trainId in trains {
          lines := lines + [LineFor(b, trains[b.trainId])];
        }
      }
      assert bookings[..|bookings|] == bookings;
      ReportEmptyIffNothingReported(bookings, trains, currentUser);
      r := if |lines| == 0 then NoBookingsFound else BookingLines(lines);
    }
  }
}
