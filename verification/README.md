# Train ticket ledger — a Dafny model

This project models the core of a desktop train-ticket reservation program: the
`TrainTicketManagementSystem` ledger object. The ledger keeps:

- the registered users (email to password and profile);
- the trains, each stored under an identifier `Train-<N>` with a route, a seat availability,
  timings and a price;
- the list of bookings (user, train, seats);
- the next train number;
- the logged-in user.

Its operations are registration, login, logout, adding a train (admin only), route search,
booking, cancellation and the per-user booking report. The first-start state holds only the
built-in admin account.

Layout:

- `wrappers.dfy`: `Option` and `Result`.
- `text.dfy`: first-index search, decimal printing and parsing of naturals.
- `accounts.dfy`: users, the admin account and the email check.
- `catalog.dfy`: train records, `Train-<N>` identifiers, the next-id computation, the catalog
  invariant and the route search specification.
- `ledger.dfy`: bookings, the seats they hold per train, the booking a cancellation acts on and
  the report specification.
- `system.dfy`: the class `TrainTicketSystem`, whose methods update its fields in place, and
  its invariant.
- `scenarios.dfy`: whole runs from the first-start state, proved from the method contracts.

The class invariant `Valid()` has three parts:

- the insertion order of the trains lists every key once;
- every key is `Train-<N>` with `1 <= N < nextTrainId`, and `Train-<nextTrainId - 1>` exists;
- every booking refers to an existing train, and each train's availability plus the seats
  booked on it equals the availability it was added with (capacity conservation, tracked by the
  ghost field `seatsAtCreation`).

The model follows the code as written, including where it is laxer than one might expect:

- Seat counts and availabilities are not checked for sign. Zero-seat and negative-seat bookings
  and cancellations go through, and availability can become negative.
  `NegativeCancelDrivesAvailabilityBelowZero` exhibits this.
- `book_ticket` does not require a login. A booking made while nobody is logged in carries no
  user, which is why `Booking.userEmail` is an `Option`.
- `cancel_ticket` removes an emptied booking with `list.remove`, which matches by value. An
  earlier zero-seat booking of the same user and train is removed instead of the one just
  emptied (`CancelRemovesEarlierZeroBooking`).
- `add_train` does not validate the availability beyond `int()`. A value `int()` rejects raises
  an uncaught exception before anything is stored. The model returns `Err(InvalidNumber)` with
  the state unchanged.

## Model

| member | source | states |
|---|---|---|
| Text.ParseNatOfNatToString | train.py:23 | parsing the decimal digits of a number gives the number back, so `int(str(n)) == n` for the id field |
| Accounts.IsValidEmail | train.py:27-28 | the check as a scan for the first '@' and a later '.'; an accepted address has at least five characters and does not start with '@' (equivalence with the pattern is `EmailCheckMatchesPattern`) |
| Accounts.EmailCheckSound | train.py:27-28 | every address the check accepts matches `[^@]+@[^@]+\.[^@]+` at its start |
| Accounts.EmailCheckComplete | train.py:27-28 | every address with a split matching the pattern is accepted by the check |
| Accounts.EmailCheckMatchesPattern | train.py:27-28 | the check accepts exactly the addresses the pattern matches at their start (both directions) |
| Catalog.TrainKey | train.py:60 | the key `f"Train-{n}"` starts with `Train-` and is followed by a non-empty run of digits containing no '-' |
| Catalog.IdField | train.py:23 | `split('-')[1]` of a `Train-` key: a prefix of the text after `Train-` that contains no '-' and stops at the next '-' or the end |
| Catalog.TrainNumber | train.py:23 | `int` of that field fails exactly when the field is empty or holds a non-digit |
| Catalog.TrainNumberOfTrainKey | train.py:19-25 | the key `Train-<n>` built by `add_train` starts with `Train-` and its `split('-')[1]` field reads back as `n` |
| Catalog.TrainKeyInjective | train.py:60 | distinct numbers give distinct train keys |
| Catalog.ScanTrainNumbers | train.py:22-24 | the scan over the keys is malformed exactly when some `Train-` key has a non-numeric field, is empty exactly when no key starts with `Train-`, and otherwise returns a number that bounds every key's number and is attained |
| Catalog.ComputeNextTrainId | train.py:19-25 | no trains gives 1; the call fails exactly when some `Train-` key is malformed, or when there are keys but none starts with `Train-` (`max` of an empty sequence); otherwise the result exceeds every key's number and is one more than some key's number |
| Catalog.NextIdOfNumberedKeys | train.py:19-25 | over keys numbered below `next`, with one of them `next - 1`, the computation gives `next` |
| Catalog.NextIdResumes | train.py:13-25 | under the catalog invariant, recomputing the next id from the stored keys (as a restart does) gives the tracked next id |
| Catalog.AddKeepsCatalogInvariant | train.py:60-67 | the key `add_train` allocates is fresh, and inserting it and incrementing the counter keeps the catalog invariant |
| Catalog.CatalogInvariantOfSameKeys | train.py:97 | updating a train's record in place keeps the catalog invariant |
| Catalog.SearchSpec | train.py:71-75 | every search hit is a catalog key, in the catalog, on the requested route, paired with its record, and there are no more hits than keys |
| Catalog.SearchPrefix | train.py:73-75 | scanning more of the catalog only appends hits, so hits keep catalog order |
| Catalog.SearchFindsEveryMatch | train.py:73-75 | every train on the route is a hit, at the position given by the number of matches before it |
| Catalog.SearchCount | train.py:73-75 | the search has exactly one hit per catalog entry on the route |
| Catalog.SearchEmptyIffNoRoute | train.py:76-77 | the search has no hits exactly when no train runs that route |
| Ledger.BookedSeatsConcat | train.py:98 | booked seats per train add up over concatenated booking lists |
| Ledger.BookedSeatsAppend | train.py:98 | appending a booking adds its seats to its own train's total and to no other |
| Ledger.BookedSeatsUpdate | train.py:113 | replacing one booking changes each total by the difference of the two bookings |
| Ledger.BookedSeatsOfUnbookedTrain | train.py:60-66 | a train no booking refers to has no booked seats |
| Ledger.RemoveFirst | train.py:115 | `list.remove(x)`: the list loses one element, exactly one copy of `x` (as multisets), taken at its first occurrence, with the elements before it in place and those after it shifted down by one |
| Ledger.BookedSeatsRemoveFirst | train.py:115 | `list.remove` takes exactly the removed booking's seats out of the totals |
| Ledger.FirstCancellable | train.py:109-111 | the chosen booking is the user's, on the train, with at least the requested seats, and no earlier booking qualifies; none is chosen exactly when no booking qualifies |
| Ledger.ApplyCancel | train.py:113-115 | every booking left after the cancellation was already there or is the reduced booking |
| Ledger.ApplyCancelSeats | train.py:113-115 | the cancellation takes exactly the cancelled seats off the chosen booking's train and nothing off the others |
| Ledger.ApplyCancelInPlace | train.py:113 | a cancellation that leaves seats on the chosen booking reduces it in place and leaves every other booking where it was |
| Ledger.ApplyCancelRemovesOne | train.py:113-115 | a cancellation that empties the chosen booking shortens the list by one, and the booking that leaves equals the chosen one (as multisets) |
| Ledger.ApplyCancelAtChosen | train.py:113-115 | when the chosen booking is emptied and no earlier booking equals its emptied value, exactly that booking leaves the list |
| Ledger.CancelRemovesChosenBooking | train.py:109-115 | with no zero-seat booking of that user and train present, cancelling all of the chosen booking's seats removes that booking and nothing else |
| Ledger.CancelRemovesEarlierZeroBooking | train.py:113-115 | as written, an earlier zero-seat booking of the same user and train is removed in place of the emptied one, which stays with 0 seats |
| Ledger.BookThenCancelGivesBackSeats | train.py:97-115 | after a booking, cancelling the same count on the same train as the same user finds a booking to act on (the new one or an earlier qualifying one), and every train's booked seats return to their value before the booking |
| Ledger.LineFor | train.py:125-131 | a report line carries the booking's train id and seats and its train's source, destination and timings |
| Ledger.ReportSpec | train.py:122-131 | the report has no more lines than there are bookings |
| Ledger.ReportLineSource | train.py:123-131 | every report line is the line of a booking of the logged-in user whose train still exists |
| Ledger.ReportPrefix | train.py:123-131 | scanning more bookings only appends lines, so lines keep booking order |
| Ledger.ReportListsEveryBooking | train.py:123-131 | every such booking has its line, at the position given by the number of such bookings before it |
| Ledger.ReportCount | train.py:123-131 | the report has exactly one line per booking of the logged-in user on an existing train |
| Ledger.ReportEmptyIffNothingReported | train.py:132-133 | the report is empty exactly when the logged-in user has no booking on an existing train |
| TicketSystem.BookKeepsInvariant | train.py:97-98 | a successful booking keeps the ledger invariant, including capacity conservation |
| TicketSystem.CancelKeepsInvariant | train.py:112-115 | a cancellation of a booking keeps the ledger invariant, including capacity conservation |
| TicketSystem.AddKeepsInvariant | train.py:60-67 | adding a train under the next id keeps the ledger invariant, with the new train's creation count equal to its availability |
| TicketSystem.SameTotals | train.py:97-115 | two states conserving the same creation counts agree, train by train, on availability plus booked seats |
| TicketSystem.TrainTicketSystem.constructor | train.py:140-145 | the first-start state holds only the admin account, no trains, no bookings, next id 1 and nobody logged in, and satisfies the invariant |
| TicketSystem.TrainTicketSystem.RegisterUser | train.py:30-39 | an invalid address and an already registered address are refused with their errors and nothing changes; otherwise the user is stored with an empty profile |
| TicketSystem.TrainTicketSystem.LoginUser | train.py:41-54 | invalid address, unknown address and wrong password are refused with their errors; the user is logged in exactly when the password matches, and otherwise the session is unchanged |
| TicketSystem.TrainTicketSystem.Logout | train.py:232 | nobody is logged in afterwards |
| TicketSystem.TrainTicketSystem.AddTrain | train.py:56-69 | only the admin may add; an availability `int` rejects fails; on success the record is stored under the fresh key `Train-<next>`, appended to the order, and the counter goes up by one; on failure nothing changes |
| TicketSystem.TrainTicketSystem.SearchTrains | train.py:71-78 | answers "no trains" exactly when no train runs the route, and otherwise lists exactly the matching trains in catalog order |
| TicketSystem.TrainTicketSystem.BookTicket | train.py:80-100 | unparsable seats, an unknown train and too few seats are refused and nothing changes; otherwise availability drops by the seats and the booking is appended; per-train totals are conserved and non-negative availability stays non-negative |
| TicketSystem.TrainTicketSystem.CancelTicket | train.py:102-119 | unparsable seats and no qualifying booking are refused and nothing changes; otherwise the first qualifying booking loses the seats (and leaves the list at zero) and its train regains them; per-train totals are conserved and non-negative availability stays non-negative for a non-negative count |
| TicketSystem.TrainTicketSystem.CommitCancel | train.py:112-115 | the chosen booking's train regains the seats, the list becomes the cancelled list, and the invariant and per-train totals hold |
| TicketSystem.TrainTicketSystem.FindCancellable | train.py:109-111 | the scan returns the first booking a cancellation may act on, or none |
| TicketSystem.TrainTicketSystem.GenerateReport | train.py:121-134 | answers "no bookings" exactly when the logged-in user has no booking on an existing train, and otherwise gives that user's lines in booking order |
| Scenarios.AdminEmailIsValid | train.py:142 | the built-in admin address passes the email check |
| Scenarios.RestartAfterTrainFive | train.py:19-25 | over a catalog holding `Train-5`, allocation resumes at 6 |
| Scenarios.FreshLedgerAllocatesConsecutiveIds | train.py:56-69 | three trains added by the admin on a fresh ledger get `Train-1`, `Train-2`, `Train-3` |
| Scenarios.BookAndCancelDownToZero | train.py:80-119 | booking 5 of 10 seats, then cancelling 3, 2 and 2 gives availability 5, 8, 10; the booking disappears and the last cancellation finds nothing |
| Scenarios.NegativeCancelDrivesAvailabilityBelowZero | train.py:102-115 | cancelling -1 seats of a zero-seat booking drives availability to -1 and the booking to 1 seat |
| Scenarios.BookThenCancelRestoresLedger | train.py:80-119 | from any valid ledger, booking seats the train has and then cancelling the same count both succeed, every train record is back as it was and every train's booked seats are unchanged |
| Scenarios.RegisterThenLogIn | train.py:30-69 | a new user registers once, is refused a second registration and a wrong password, logs in with the right one, and cannot add trains |

## Left out

- The Tkinter GUI (`TrainTicketManagementGUI`) is not modelled, except its logout step, which clears the session.
- Message boxes are not modelled. Each operation returns a `Status`, `Result`, `SearchResult` or `Report` value naming the outcome instead.
- Persistence is not modelled: `save_data`/`load_data` pickling, the file-existence test and the fallback for an empty file. Only the default first-start state is modelled; loading an arbitrary saved snapshot is not.
- The background image download is not modelled; it is network I/O.
- Python's `int()` is modelled only as far as the ledger uses it. Seat and availability inputs are given as already parsed (`Option<int>`, `None` where `int` raises). Train-id fields are parsed as plain decimal digit strings; signs, whitespace, underscores and non-ASCII digits are not modelled.
- The regular expression engine is not modelled in general. Only the one pattern used by `is_valid_email` is modelled, by a scan proved equivalent to it.
- Text rendering of search results and report lines is not modelled. The model returns the `(id, record)` pairs and `ReportLine` records that the strings are formatted from.
- Timings, price and profile are stored and copied as opaque strings and maps.
- Overwriting an existing train in `add_train` is not modelled as a separate case, because the invariant makes the allocated key always fresh (`AddKeepsCatalogInvariant`).
- Concurrency is not modelled; the program is single-threaded.
