/**
  The booking page as state: `saved` is the bookings file and `bookings` the
  dictionary one run of the page works on. A run reloads the file, makes sure
  the chosen date has a schedule, lists the open sessions, validates the form
  and, on success, appends the booking and writes the whole store back.
 */
module App {
  import opened Weekend
  import opened Bookings

  class BookingApp {
    /** The contents of the bookings file; the empty map when it is absent. */
    var saved: Store
    /** The store as loaded and updated by the current run. */
    var bookings: Store

    /** Both copies have every session of every date, within capacity. */
    ghost predicate Valid()
      reads this
    {
      Shaped(saved) && WithinCapacity(saved) && Shaped(bookings) && WithinCapacity(bookings)
    }

    /** A page whose bookings file does not exist yet. */
    constructor ()
      ensures Valid() && saved == map[] && bookings == map[]
    {
      saved := map[];
      bookings := map[];
    }

    /** Reads the whole file into the run's store. */
    method Load()
      requires Valid()
      modifies this`bookings
      ensures Valid() && bookings == saved
    {
      bookings := saved;
    }

    /** Writes the whole run's store back to the file, replacing it. */
    method Save()
      requires Valid()
      modifies this`saved
      ensures Valid() && saved == bookings
    {
      saved := bookings;
    }

    /** Gives `d` a schedule with every session empty unless it has one;
        no other date is added, removed or changed. */
    method EnsureDate(d: Date)
      requires Valid()
      modifies this`bookings
      ensures Valid()
      ensures bookings == Ensure(old(bookings), d)
      ensures d in bookings && bookings[d] == ScheduleOf(old(bookings), d)
      ensures d in old(bookings) ==> bookings == old(bookings)
    {
      if d !in bookings {
        bookings := bookings[d := FreshSchedule()];
      }
    }

    /** The sessions of `d` below capacity, in the order of the session table,
        each with its current count. */
    method Available(d: Date) returns (avail: seq<Offer>)
      requires d in bookings && Covers(bookings[d], Sessions)
      ensures avail == Offers(bookings[d], Sessions)
    {
      var schedule := bookings[d];
      avail := [];
      var i := 0;
      while i < |Sessions|
        invariant 0 <= i <= |Sessions|
        invariant avail == Offers(schedule, Sessions[..i])
      {
        var session := Sessions[i];
        var count := |schedule[session.code]|;
        assert Sessions[..i + 1][..i] == Sessions[..i];
        if count < MaxBookings {
          avail := avail + [Offer(session, count)];
        }
        i := i + 1;
      }
      assert Sessions[..i] == Sessions;
    }

    /** Books `choice`, one of the sessions offered for `d`: with a field
        empty nothing changes and nothing is saved; otherwise the record is
        appended to the end of that session and the store is saved. */
    method Submit(d: Date, choice: Offer, rec: Record) returns (o: Outcome)
      requires Valid() && d in bookings
      requires choice in Offers(bookings[d], Sessions)
      modifies this
      ensures Valid()
      ensures !Complete(rec) ==> o == MissingFields && saved == old(saved) && bookings == old(bookings)
      ensures Complete(rec) ==>
        && o == Booked(choice.session)
        && bookings == Appended(old(bookings), d, choice.session.code, rec)
        && saved == bookings
    {
      if !Complete(rec) {
        return MissingFields;
      }
      AppendKeepsCapacity(bookings, d, choice.session.code, rec);
      bookings := bookings[d := bookings[d][choice.session.code := bookings[d][choice.session.code] + [rec]]];
      Save();
      o := Booked(choice.session);
    }

    /** One run of the page for `req`. A date that is not a weekend day is
        refused before the file is read; otherwise the run ends as `Handle`
        says, and the file changes only by a successful booking. */
    method Run(req: Request) returns (o: Outcome)
      requires Valid() && Admissible(saved, req)
      modifies this
      ensures Valid()
      ensures (o, saved) == Handle(old(saved), req)
      ensures !IsWeekend(req.date) ==> bookings == old(bookings)
      ensures o.Booked? ==> bookings == saved
    {
      if !IsWeekend(req.date) {
        return NotWeekend;
      }
      Load();
      EnsureDate(req.date);
      var avail := Available(req.date);
      if avail == [] {
        return FullyBooked;
      }
      if !req.pressed {
        return Idle;
      }
      var choice := avail[req.pick];
      assert choice in avail;
      o := Submit(req.date, choice, req.record);
    }
  }
}
