/** Bookings, the seat totals they hold, the choice of booking a cancellation acts on, and the
    per-user report. */
module Ledger {
  import opened Wrappers
  import opened Text
  import opened Catalog

  /** One reservation; `userEmail` is whoever was logged in when it was made (possibly nobody). */
  datatype Booking = Booking(userEmail: Option<string>, trainId: string, seats: int)

  function SeatsOn(b: Booking, trainId: string): int {
    if b.trainId == trainId then b.seats else 0
  }

  /** Sum of `seats` over the bookings of `trainId`. */
  function BookedSeats(bookings: seq<Booking>, trainId: string): int {
    if |bookings| == 0 then 0 else SeatsOn(bookings[0], trainId) + BookedSeats(bookings[1..], trainId)
  }

  lemma {:induction false} BookedSeatsConcat(a: seq<Booking>, b: seq<Booking>, trainId: string)
    ensures BookedSeats(a + b, trainId) == BookedSeats(a, trainId) + BookedSeats(b, trainId)
  {
    if |a| == 0 {
      assert a + b == b;
    } else {
      assert (a + b)[1..] == a[1..] + b;
      BookedSeatsConcat(a[1..], b, trainId);
    }
  }

  /** Appending a booking adds its seats to its own train's total and to no other. */
  lemma BookedSeatsAppend(bookings: seq<Booking>, b: Booking, trainId: string)
    ensures BookedSeats(bookings + [b], trainId) == BookedSeats(bookings, trainId) + SeatsOn(b, trainId)
  {
    BookedSeatsConcat(bookings, [b], trainId);
    assert [b][1..] == [];
  }

  /** Replacing one booking changes the totals by the difference of the two. */
  lemma BookedSeatsUpdate(bookings: seq<Booking>, i: nat, b: Booking, trainId: string)
    requires i < |bookings|
    ensures BookedSeats(bookings[i := b], trainId) ==
      BookedSeats(bookings, trainId) - SeatsOn(bookings[i], trainId) + SeatsOn(b, trainId)
  {
    var pre, post := bookings[..i], bookings[i + 1..];
    assert bookings == pre + [bookings[i]] + post;
    assert bookings[i := b] == pre + [b] + post;
    BookedSeatsConcat(pre + [bookings[i]], post, trainId);
    BookedSeatsConcat(pre, [bookings[i]], trainId);
    BookedSeatsConcat(pre + [b], post, trainId);
    BookedSeatsConcat(pre, [b], trainId);
    assert [b][1..] == [] && [bookings[i]][1..] == [];
  }

  /** A train no booking refers to has no booked seats. */
  lemma {:induction false} BookedSeatsOfUnbookedTrain(bookings: seq<Booking>, trainId: string)
    requires forall i :: 0 <= i < |bookings| ==> bookings[i].trainId != trainId
    ensures BookedSeats(bookings, trainId) == 0
  {
    if |bookings| > 0 {
      BookedSeatsOfUnbookedTrain(bookings[1..], trainId);
    }
  }

  /** `list.remove(x)`: drop the first element equal to `x`. */
  function RemoveFirst<T(==)>(s: seq<T>, x: T): (r: seq<T>)
    requires x in s
    ensures |r| == |s| - 1
    ensures multiset(r) == multiset(s) - multiset{x}
    ensures var i := FirstIndex(s, x, 0); r[..i] == s[..i] && r[i..] == s[i + 1..]
  {
    var i := FirstIndex(s, x, 0);
    assert s == s[..i] + [x] + s[i + 1..];
    s[..i] + s[i + 1..]
  }

  /** Removing an element takes exactly its seats out of the totals. */
  lemma BookedSeatsRemoveFirst(bookings: seq<Booking>, b: Booking, trainId: string)
    requires b in bookings
    ensures BookedSeats(RemoveFirst(bookings, b), trainId) == BookedSeats(bookings, trainId) - SeatsOn(b, trainId)
  {
    var i := FirstIndex(bookings, b, 0);
    var pre, post := bookings[..i], bookings[i + 1..];
    assert bookings == pre + [b] + post;
    BookedSeatsConcat(pre + [b], post, trainId);
    BookedSeatsConcat(pre, [b], trainId);
    BookedSeatsConcat(pre, post, trainId);
    assert [b][1..] == [];
  }

  /** A booking `cancel_ticket` may act on: same user, same train, at least `seats` seats. */
  predicate Cancellable(b: Booking, user: Option<string>, trainId: string, seats: int) {
    b.userEmail == user && b.trainId == trainId && b.seats >= seats
  }

  /** Index of the first cancellable booking in list order, if any. */
  function FirstCancellable(bookings: seq<Booking>, user: Option<string>, trainId: string, seats: int)
    : (r: Option<nat>)
    ensures r.Some? ==> r.value < |bookings| && Cancellable(bookings[r.value], user, trainId, seats)
    ensures r.Some? ==> forall j :: 0 <= j < r.value ==> !Cancellable(bookings[j], user, trainId, seats)
    ensures r.None? ==> forall j :: 0 <= j < |bookings| ==> !Cancellable(bookings[j], user, trainId, seats)
  {
    if |bookings| == 0 then None
    else if Cancellable(bookings[0], user, trainId, seats) then Some(0)
    else match FirstCancellable(bookings[1..], user, trainId, seats)
      case None => None
      case Some(j) => Some(j + 1)
  }

  /** What `cancel_ticket` does to the list once it has chosen booking `i`: subtract `seats` from
      it in place and, when that leaves zero, `remove` the first booking equal to the result. */
  function ApplyCancel(bookings: seq<Booking>, i: nat, seats: int): (r: seq<Booking>)
    requires i < |bookings|
    ensures forall b :: b in r ==>
      (b in bookings || b == bookings[i].(seats := bookings[i].seats - seats))
  {
    var updated := bookings[i].(seats := bookings[i].seats - seats);
    var s := bookings[i := updated];
    assert s[i] == updated;
    if updated.seats == 0 then RemoveFirst(s, updated) else s
  }

  /** Cancelling takes exactly `seats` off the chosen booking's train and nothing off the others. */
  lemma ApplyCancelSeats(bookings: seq<Booking>, i: nat, seats: int, trainId: string)
    requires i < |bookings|
    ensures BookedSeats(ApplyCancel(bookings, i, seats), trainId) ==
      BookedSeats(bookings, trainId) - (if bookings[i].trainId == trainId then seats else 0)
  {
    var updated := bookings[i].(seats := bookings[i].seats - seats);
    BookedSeatsUpdate(bookings, i, updated, trainId);
    if updated.seats == 0 {
      assert bookings[i := updated][i] == updated;
      BookedSeatsRemoveFirst(bookings[i := updated], updated, trainId);
    }
  }

  /** A cancellation that does not empty the chosen booking reduces it in place and leaves every
      other booking where it was. */
  lemma ApplyCancelInPlace(bookings: seq<Booking>, i: nat, seats: int)
    requires i < |bookings| && bookings[i].seats != seats
    ensures var r := ApplyCancel(bookings, i, seats);
      |r| == |bookings| && r[i] == bookings[i].(seats := bookings[i].seats - seats) &&
      forall j :: 0 <= j < |bookings| && j != i ==> r[j] == bookings[j]
  {
  }

  /** A cancellation that empties the chosen booking shortens the list by one, and what leaves
      is (a booking equal to) the chosen one, whichever position `remove` takes it from. */
  lemma ApplyCancelRemovesOne(bookings: seq<Booking>, i: nat, seats: int)
    requires i < |bookings| && bookings[i].seats == seats
    ensures var r := ApplyCancel(bookings, i, seats);
      |r| == |bookings| - 1 && multiset(r) == multiset(bookings) - multiset{bookings[i]}
  {
    var updated := bookings[i].(seats := 0);
    var s := bookings[i := updated];
    assert s[i] == updated;
    assert bookings == bookings[..i] + [bookings[i]] + bookings[i + 1..];
    assert s == bookings[..i] + [updated] + bookings[i + 1..];
    assert multiset(s) - multiset{updated} == multiset(bookings) - multiset{bookings[i]};
  }

  /** When the chosen booking drops to zero and no booking before it equals the emptied value,
      the booking removed is the chosen one. */
  lemma ApplyCancelAtChosen(bookings: seq<Booking>, i: nat, seats: int)
    requires i < |bookings| && bookings[i].seats == seats
    requires forall j :: 0 <= j < i ==> bookings[j] != bookings[i].(seats := 0)
    ensures ApplyCancel(bookings, i, seats) == bookings[..i] + bookings[i + 1..]
  {
    var updated := bookings[i].(seats := 0);
    var s := bookings[i := updated];
    assert s[i] == updated;
    assert FirstIndex(s, updated, 0) == i;
    var r := RemoveFirst(s, updated);
    assert r == r[..i] + r[i..];
    assert r[..i] == s[..i] == bookings[..i];
    assert r[i..] == s[i + 1..] == bookings[i + 1..];
  }

  /** The chosen booking is the first of its user and train with enough seats, so only an
      earlier zero-seat booking of the same user and train can be removed in its place: without
      one, cancelling all of the chosen booking's seats removes exactly that booking. */
  lemma CancelRemovesChosenBooking(bookings: seq<Booking>, user: Option<string>, trainId: string, seats: int)
    requires FirstCancellable(bookings, user, trainId, seats).Some?
    requires forall j :: 0 <= j < |bookings| ==>
      (bookings[j].userEmail == user && bookings[j].trainId == trainId ==> bookings[j].seats != 0)
    ensures var i := FirstCancellable(bookings, user, trainId, seats).value;
      bookings[i].seats == seats ==> ApplyCancel(bookings, i, seats) == bookings[..i] + bookings[i + 1..]
  {
    var i := FirstCancellable(bookings, user, trainId, seats).value;
    if bookings[i].seats == seats {
      ApplyCancelAtChosen(bookings, i, seats);
    }
  }

  /** As written, `remove` matches by value: with a zero-seat booking of the same user and train
      ahead of the chosen one, that earlier booking disappears and the emptied one stays. */
  lemma CancelRemovesEarlierZeroBooking()
    ensures var u, v := Some("u@x.io"), Some("v@x.io");
      var bookings := [Booking(u, "Train-1", 0), Booking(v, "Train-1", 3), Booking(u, "Train-1", 5)];
      FirstCancellable(bookings, u, "Train-1", 5) == Some(2) &&
      ApplyCancel(bookings, 2, 5) == [Booking(v, "Train-1", 3), Booking(u, "Train-1", 0)] &&
      ApplyCancel(bookings, 2, 5) != bookings[..2]
  {
    var u, v := Some("u@x.io"), Some("v@x.io");
    var bookings := [Booking(u, "Train-1", 0), Booking(v, "Train-1", 3), Booking(u, "Train-1", 5)];
    assert FirstCancellable(bookings[2..], u, "Train-1", 5) == Some(0);
    assert bookings[1..][1..] == bookings[2..];
    assert FirstCancellable(bookings[1..], u, "Train-1", 5) == Some(1);
    var s := bookings[2 := Booking(u, "Train-1", 0)];
    assert FirstIndex(s, Booking(u, "Train-1", 0), 0) == 0;
  }

  /** Booking `seats` seats and then cancelling the same count on the same train as the same
      user always finds a booking to act on (the new one, or an earlier one that qualifies), and
      the seats booked on every train return to what they were before the booking. */
  lemma BookThenCancelGivesBackSeats(bookings: seq<Booking>, user: Option<string>, trainId: string, seats: int)
    ensures var s := bookings + [Booking(user, trainId, seats)];
      var found := FirstCancellable(s, user, trainId, seats);
      found.Some? && found.value <= |bookings| &&
      forall k :: BookedSeats(ApplyCancel(s, found.value, seats), k) == BookedSeats(bookings, k)
  {
    var s := bookings + [Booking(user, trainId, seats)];
    assert Cancellable(s[|bookings|], user, trainId, seats);
    var i := FirstCancellable(s, user, trainId, seats).value;
    forall k ensures BookedSeats(ApplyCancel(s, i, seats), k) == BookedSeats(bookings, k) {
      ApplyCancelSeats(s, i, seats, k);
      BookedSeatsAppend(bookings, Booking(user, trainId, seats), k);
    }
  }

  /** One line of `generate_report`. */
  datatype ReportLine = ReportLine(trainId: string, source: string, destination: string, timings: string, seats: int)

  function LineFor(b: Booking, t: Train): (line: ReportLine)
    ensures line.trainId == b.trainId && line.seats == b.seats
    ensures (line.source, line.destination) == t.route && line.timings == t.timings
  {
    ReportLine(b.trainId, t.route.0, t.route.1, t.timings, b.seats)
  }

  /** A booking that yields a report line: it belongs to `user` and its train still exists. */
  predicate Reported(b: Booking, trains: map<string, Train>, user: Option<string>) {
    b.userEmail == user && b.trainId in trains
  }

  /** The lines `generate_report` collects, in booking order. */
  function ReportSpec(bookings: seq<Booking>, trains: map<string, Train>, user: Option<string>)
    : (lines: seq<ReportLine>)
    ensures |lines| <= |bookings|
  {
    if |bookings| == 0 then []
    else
      var init := bookings[..|bookings| - 1];
      var b := bookings[|bookings| - 1];
      ReportSpec(init, trains, user) + (if Reported(b, trains, user) then [LineFor(b, trains[b.trainId])] else [])
  }

  /** Every report line is the line of some reported booking: the `p`-th line comes from
      booking `i`. */
  lemma {:induction false} ReportLineSource(bookings: seq<Booking>, trains: map<string, Train>,
                                            user: Option<string>, p: nat) returns (i: nat)
    requires p < |ReportSpec(bookings, trains, user)|
    ensures i < |bookings| && Reported(bookings[i], trains, user)
    ensures ReportSpec(bookings, trains, user)[p] == LineFor(bookings[i], trains[bookings[i].trainId])
  {
    var init, last := bookings[..|bookings| - 1], |bookings| - 1;
    var pre := ReportSpec(init, trains, user);
    if p < |pre| {
      i := ReportLineSource(init, trains, user, p);
      assert init[i] == bookings[i];
    } else {
      i := last;
    }
  }

  lemma {:induction false} ReportPrefix(bookings: seq<Booking>, n: nat, trains: map<string, Train>, user: Option<string>)
    requires n <= |bookings|
    ensures var pre, all := ReportSpec(bookings[..n], trains, user), ReportSpec(bookings, trains, user);
            |pre| <= |all| && all[..|pre|] == pre
  {
    if n < |bookings| {
      var init := bookings[..|bookings| - 1];
      assert init[..n] == bookings[..n];
      ReportPrefix(init, n, trains, user);
    } else {
      assert bookings[..n] == bookings;
    }
  }

  /** Every reported booking has its line, at the position given by the number of reported
      bookings before it: the report keeps booking order and skips only the unreported. */
  lemma ReportListsEveryBooking(bookings: seq<Booking>, i: nat, trains: map<string, Train>, user: Option<string>)
    requires i < |bookings| && Reported(bookings[i], trains, user)
    ensures var p, all := |ReportSpec(bookings[..i], trains, user)|, ReportSpec(bookings, trains, user);
            p < |all| && all[p] == LineFor(bookings[i], trains[bookings[i].trainId])
  {
    ReportPrefix(bookings, i + 1, trains, user);
    assert bookings[..i + 1][..i] == bookings[..i];
  }

  /** The report is empty exactly when no booking of the user refers to an existing train. */
  lemma ReportEmptyIffNothingReported(bookings: seq<Booking>, trains: map<string, Train>, user: Option<string>)
    ensures |ReportSpec(bookings, trains, user)| == 0 <==>
      forall i :: 0 <= i < |bookings| ==> !Reported(bookings[i], trains, user)
  {
    if exists i :: 0 <= i < |bookings| && Reported(bookings[i], trains, user) {
      var i :| 0 <= i < |bookings| && Reported(bookings[i], trains, user);
      ReportListsEveryBooking(bookings, i, trains, user);
    }
  }

  /** Positions of the bookings that yield a report line. */
  ghost function ReportedPositions(bookings: seq<Booking>, trains: map<string, Train>, user: Option<string>): set<int> {
    set i | 0 <= i < |bookings| && Reported(bookings[i], trains, user)
  }

  /** The report has exactly one line per reported booking. */
  lemma {:induction false} ReportCount(bookings: seq<Booking>, trains: map<string, Train>, user: Option<string>)
    ensures |ReportSpec(bookings, trains, user)| == |ReportedPositions(bookings, trains, user)|
  {
    if |bookings| == 0 {
      assert ReportedPositions(bookings, trains, user) == {};
    } else {
      var n := |bookings| - 1;
      var init := bookings[..n];
      ReportCount(init, trains, user);
      var before := ReportedPositions(init, trains, user);
      var all := ReportedPositions(bookings, trains, user);
      if Reported(bookings[n], trains, user) {
        assert all == before + {n};
        assert n !in before;
      } else {
        assert all == before;
      }
    }
  }
}
