# Weekend group booking: a verified model

This project models the booking rules of a small weekend appointment page. Groups reserve one of three fixed sessions on a Saturday or a Sunday, and each session takes at most three groups. The rules live in `app.py`:

- the constants: the allowed day names, the session table of labels and codes, and the capacity of 3;
- the weekend gate `is_weekend`;
- the part of `main` that does the work. It loads the bookings file and creates the date's schedule lazily. It lists the sessions below capacity, checks that the three form fields are filled in, appends the booking and writes the file back.

The model has three modules:

- `Weekend` (`weekend.dfy`): dates are day numbers, using the same day numbering as Python's `date.toordinal()`. The weekday works like `date.weekday()`. `IsWeekend` checks whether the day's name is in the allowed names.
- `Bookings` (`bookings.dfy`): the store as values. A store maps a date to a schedule, and a schedule maps a session code to its records in booking order. This module also has:
  - the session table and the fresh schedule;
  - `Ensure`, the lazy creation of a date's schedule;
  - `Offers`, the list of sessions still open;
  - `Appended`, the append of one booking;
  - `Handle`, which specifies what one run of the page does to the saved store;
  - `Replay`, which applies a sequence of runs one after another.
- `App` (`app.dfy`): the class `BookingApp`. `saved` is the contents of the bookings file and `bookings` is the dictionary that one run works on. `Load`, `Save`, `EnsureDate`, `Available` (the loop that builds the list of open sessions), `Submit` and `Run` update these fields in place. `Run` is one execution of `main` with the book button in a given state, and it is proved to do what `Handle` says.

The selection box only offers sessions from the open list. The model states this as an explicit precondition: `Admissible` for a run and `choice in Offers(...)` for `Submit`. The code never re-checks capacity when it appends, so capacity holds only because of this precondition. `ReplayKeepsCapacity` proves that, under it, no session ever holds more than three records, whatever the sequence of runs.

The model follows the code:
- The weekend check runs before anything else.
- There is no capacity re-check at append time and no lock.
- A missing field gives one error that does not say which field.
- Failed reads and writes of the file are not modelled as errors.

## Model

| member | source | states |
|---|---|---|
| `Weekend.Weekday` | app.py:28-29 | the weekday of a date is one of the seven day names (0 is Monday) |
| `Weekend.DayName` | app.py:29 | stands for `strftime('%A')`: the name is one of the seven day names, and it is "Saturday" iff the weekday is 5 and "Sunday" iff it is 6 |
| `Weekend.IsWeekend` | app.py:28-29 | a date is bookable iff its weekday is Saturday or Sunday, that is iff its day name is one of the allowed names |
| `Weekend.WeekendRepeatsWeekly` | app.py:28-29 | check of the day numbering: moving a date by whole weeks does not change whether it is bookable |
| `Weekend.WeekendIsTwoAdjacentDays` | app.py:7 | check of the day numbering: the bookable days are a Saturday and the Sunday after it; two days away from a bookable day is never bookable |
| `Weekend.SaturdayAndMondayExamples` | app.py:7-29 | 2024-06-08 is a Saturday and bookable; 2024-06-10 is a Monday and is refused |
| `Bookings.SessionTableIsWellFormed` | app.py:8-12 | there are exactly three sessions, with the distinct codes 10_12, 14_16 and 16_18 |
| `Bookings.FreshSchedule` | app.py:46 | a new schedule has exactly the session codes as keys, each with an empty list |
| `Bookings.ScheduleOf` | app.py:45-46 | in a well-formed store, the schedule of a date (existing or about to be created) has exactly the session codes |
| `Bookings.Ensure` | app.py:45-46 | ensuring a date adds only that date; an absent date gets every session empty; every date already present keeps its schedule |
| `Bookings.EnsureIsIdempotent` | app.py:45-46 | ensuring twice is ensuring once; the ensured schedule is the existing one or the fresh one; shape and capacity are kept |
| `Bookings.Offers` | app.py:49-56 | every offered session belongs to the session table, carries its current count, and that count is below 3; no more offers than sessions |
| `Bookings.OffersExactlyTheOpenSessions` | app.py:49-56 | a session is offered (with its count) iff it is in the table and its count is below 3 |
| `Bookings.NoOffersIffAllFull` | app.py:49-58 | the offered list is empty iff every session has 3 or more bookings |
| `Bookings.IndexOfInPrefix` | app.py:50 | helper of the table-order proof: a session's position in the prefix of the table that the loop has already walked stays the same when the loop takes one more session |
| `Bookings.OrderExtends` | app.py:50-56 | one more loop step, whether or not it offers its session, keeps the offered list in table order |
| `Bookings.OffersFollowSessionOrder` | app.py:50-56 | the offered sessions appear in the order of the session table, each at most once |
| `Bookings.Appended` | app.py:78 | the chosen list grows by the new record at its end; every other session of the date and every other date is unchanged |
| `Bookings.AppendKeepsCapacity` | app.py:53-78 | appending to a session below capacity keeps every session at or below 3 and keeps the store well formed |
| `Bookings.OffersFor` | app.py:49-56 | the sessions offered for a date are table sessions below capacity with their counts in the (possibly fresh) schedule of that date |
| `Bookings.Complete` | app.py:69 | the field check: a booking is incomplete iff one of email, school name and group name is the empty string |
| `Bookings.Admissible` | app.py:58-60 | the selection-box restriction, the explicit precondition the capacity bound rests on: it constrains only runs that reach the selection box (a weekend date with some open session), and there the picked position is within the offered list and names a table session below capacity |
| `Bookings.Handle` | app.py:38-82 | one run: the outcome is "not a weekend" iff the date is a weekday; no open session means fully booked; a weekend date with open sessions and the button not pressed is idle; a missing field is refused; a booking is made iff the date is a weekend day, some session is open, the button is pressed and all three fields are non-empty; only a booking changes the saved store, by exactly one record appended to the chosen open session (the one at the picked position of the offered list), leaving every other session and date unchanged; capacity is preserved |
| `Bookings.ExtendsIsTransitive` | app.py:78 | append-only growth composes over several steps |
| `Bookings.HandleOnlyAppends` | app.py:72-79 | one run never removes a date, a session or a record: every list is a prefix of its successor |
| `Bookings.Replay` | app.py:32-82 | repeated runs of the page, one after another, each on the store the previous one saved; every store reached keeps every date's schedule to exactly the session codes |
| `Bookings.ReplayKeepsCapacity` | app.py:53-79 | after any sequence of admissible runs, every session of every date still holds at most 3 records |
| `Bookings.ReplayOnlyAppends` | app.py:72-79 | after any sequence of runs, every date is kept and every list is a prefix of what it becomes |
| `Bookings.CapacityFromEmptyStore` | app.py:17-21 | starting without a bookings file, no sequence of runs ever puts more than 3 groups in a session |
| `Bookings.FullSessionIsNeverBooked` | app.py:53-60 | a session with 3 or more bookings is never booked, and a booking elsewhere leaves it unchanged |
| `Bookings.FirstSaturdayBooking` | app.py:38-79 | on an empty store, a complete booking of the first session on Saturday 2024-06-08 succeeds, leaves exactly that one record, and leaves the other sessions empty |
| `App.BookingApp.constructor` | app.py:17-21 | without a bookings file both the file and the run's store are empty |
| `App.BookingApp.Load` | app.py:17-21 | the run's store becomes the contents of the file |
| `App.BookingApp.Save` | app.py:23-25 | the file becomes the whole run's store |
| `App.BookingApp.EnsureDate` | app.py:45-46 | the date gets a schedule with every session empty unless it has one; nothing else changes |
| `App.BookingApp.Available` | app.py:49-56 | the loop builds exactly the list of open sessions, in table order, with their counts |
| `App.BookingApp.Submit` | app.py:68-79 | with a field empty, nothing changes and nothing is saved; otherwise the record is appended to the chosen open session and the whole store is saved |
| `App.BookingApp.Run` | app.py:32-82 | one execution of the page ends as `Handle` says and saves exactly what `Handle` says; a weekday date leaves even the run's store untouched; capacity and shape are kept |

## Left out

- Streamlit presentation: the title, subheaders, the disabled "FULL" buttons, the selection box, the text inputs and the warning, error, info and success messages. A run's input is a `Request` instead: the date, the position picked in the offered list, whether the book button was pressed, and the three field values. A run's message is an `Outcome`.
- The mapping from the label picked in the selection box back to a code by string equality (app.py:59-60). The selection is modelled directly as a position in the offered list.
- JSON reading and writing, `os.path.exists` and the file name. The file is the `saved` field, and an absent file is the empty store. The model does not cover a file that cannot be read or parsed, or a hand-edited file whose schedule lacks a session code; the code would raise an exception on those. The model's invariant (`Valid`, through `Shaped` and `WithinCapacity`) also rules out two hand-edited files that the code handles without an error: a session holding 4 or more records, which the page just shows as FULL, and a schedule with an extra code, which the page never reads.
- `datetime.today()`, the date picker's lower bound that rules out past dates, and `strftime`. Only the weekday name is modelled. The confirmation text and the "(n/3 booked)" status label are display strings, so the model carries the count itself.
- The ISO date string used as the store key. The model keys the store by the date itself, which is equivalent because `isoformat` is injective.
- Concurrency. The code takes no lock. Each run saves the whole store it loaded, so when two runs overlap, the later save overwrites the earlier one. Both users see a confirmation, but one booking is lost. No session goes above 3. The model runs one page at a time and does not capture this lost update.
- `app.py` has no persistence error on a corrupt file, no error that lists the missing fields, and no capacity re-check inside the submission, so the model has none of them either.
