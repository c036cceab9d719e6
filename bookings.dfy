/**
  The booking store and the rules of one run of the booking page, as values:
  the session table, the lazily created day schedule, the list of sessions
  still open, the append of a booking, and `Handle`, which says what one run
  of the page does to the saved store.
 */
module Bookings {
  import opened Weekend

  /** The stable short identifier of a session, the key used in the store. */
  type Code = string

  /** One entry of the session table: its display label and its code. */
  datatype Session = Session(display: string, code: Code)

  /** One group's reservation. */
  datatype Record = Record(email: string, schoolName: string, groupName: string)

  /** A date's bookings: each session code to its records in booking order. */
  type Schedule = map<Code, seq<Record>>

  /** The whole store: each date that was ever booked to its schedule. */
  type Store = map<Date, Schedule>

  /** The session table, in its fixed order. */
  const Sessions: seq<Session> := [
    Session("10:00\U{2013}12:00", "10_12"),
    Session("14:00\U{2013}16:00", "14_16"),
    Session("16:00\U{2013}18:00", "16_18")
  ]

  /** The number of groups a session can take. */
  const MaxBookings: nat := 3

  /** The codes of the session table. */
  function SessionCodes(): set<Code>
  {
    set s | s in Sessions :: s.code
  }

  /** No two sessions of `ss` share a code. */
  ghost predicate DistinctCodes(ss: seq<Session>)
  {
    forall i, j :: 0 <= i < j < |ss| ==> ss[i].code != ss[j].code
  }

  /** The session table has three sessions with three distinct codes. */
  lemma SessionTableIsWellFormed()
    ensures |Sessions| == 3 && DistinctCodes(Sessions)
    ensures SessionCodes() == {"10_12", "14_16", "16_18"}
  {
  }

  /** Every schedule of the store has exactly the session codes as keys. */
  ghost predicate Shaped(st: Store)
  {
    forall d :: d in st ==> st[d].Keys == SessionCodes()
  }

  /** No session of any date holds more than `MaxBookings` records. */
  ghost predicate WithinCapacity(st: Store)
  {
    forall d, c :: d in st && c in st[d] ==> |st[d][c]| <= MaxBookings
  }

  /** The schedule a date gets when it is first touched. */
  function FreshSchedule(): (s: Schedule)
    ensures s.Keys == SessionCodes()
    ensures forall c :: c in s ==> s[c] == []
  {
    map c | c in SessionCodes() :: []
  }

  /** The schedule of `d`, or the fresh one when `d` was never touched. */
  function ScheduleOf(st: Store, d: Date): (r: Schedule)
    ensures Shaped(st) ==> r.Keys == SessionCodes()
  {
    if d in st then st[d] else FreshSchedule()
  }

  /** The store after making sure that `d` has a schedule. */
  function Ensure(st: Store, d: Date): (r: Store)
    ensures r.Keys == st.Keys + {d}
    ensures d !in st ==> r[d].Keys == SessionCodes() && forall c :: c in r[d] ==> r[d][c] == []
    ensures forall d' :: d' in st ==> r[d'] == st[d']
  {
    if d in st then st else st[d := FreshSchedule()]
  }

  /** Ensuring a date twice is ensuring it once, and it keeps the store shaped
      and within capacity. */
  lemma EnsureIsIdempotent(st: Store, d: Date)
    ensures Ensure(Ensure(st, d), d) == Ensure(st, d)
    ensures Ensure(st, d)[d] == ScheduleOf(st, d)
    ensures Shaped(st) ==> Shaped(Ensure(st, d))
    ensures WithinCapacity(st) ==> WithinCapacity(Ensure(st, d))
  {
  }

  /** A session offered for booking, with its current number of bookings. */
  datatype Offer = Offer(session: Session, count: nat)

  /** Every session of `ss` has a list in `sch`. */
  ghost predicate Covers(sch: Schedule, ss: seq<Session>)
  {
    forall s :: s in ss ==> s.code in sch
  }

  /** The sessions of `ss` that still have room in `sch`, in the order of
      `ss`, each with its current count. */
  function Offers(sch: Schedule, ss: seq<Session>): (r: seq<Offer>)
    requires Covers(sch, ss)
    ensures |r| <= |ss|
    ensures forall o :: o in r ==> o.session in ss && o.count == |sch[o.session.code]| && o.count < MaxBookings
    decreases |ss|
  {
    if ss == [] then []
    else
      var s := ss[|ss| - 1];
      var count := |sch[s.code]|;
      Offers(sch, ss[..|ss| - 1]) + (if count >= MaxBookings then [] else [Offer(s, count)])
  }

  /** A session is offered exactly when it is in `ss` and below capacity. */
  lemma {:induction false} OffersExactlyTheOpenSessions(sch: Schedule, ss: seq<Session>, s: Session)
    requires Covers(sch, ss) && s.code in sch
    ensures Offer(s, |sch[s.code]|) in Offers(sch, ss) <==> s in ss && |sch[s.code]| < MaxBookings
    decreases |ss|
  {
    if ss != [] {
      var init := ss[..|ss| - 1];
      assert ss == init + [ss[|ss| - 1]];
      OffersExactlyTheOpenSessions(sch, init, s);
    }
  }

  /** No session is offered exactly when every session is full. */
  lemma NoOffersIffAllFull(sch: Schedule, ss: seq<Session>)
    requires Covers(sch, ss)
    ensures Offers(sch, ss) == [] <==> forall s :: s in ss ==> |sch[s.code]| >= MaxBookings
  {
  }

  /** The position of the first occurrence of `s` in `ss`. */
  function IndexOf(ss: seq<Session>, s: Session): (k: nat)
    requires s in ss
    ensures k < |ss| && ss[k] == s
    ensures forall j :: 0 <= j < k ==> ss[j] != s
  {
    if ss[0] == s then 0 else 1 + IndexOf(ss[1..], s)
  }

  /** Appending a session does not move the sessions already present. */
  lemma IndexOfInPrefix(ss: seq<Session>, x: Session, s: Session)
    requires s in ss
    ensures s in ss + [x] && IndexOf(ss + [x], s) == IndexOf(ss, s)
  {
    var k, k' := IndexOf(ss, s), IndexOf(ss + [x], s);
    assert (ss + [x])[k] == s;
    assert forall j :: 0 <= j < |ss| ==> (ss + [x])[j] == ss[j];
  }

  /** The sessions of `r` occur in `ss`, in the order of `ss`. */
  ghost predicate InSessionOrder(r: seq<Offer>, ss: seq<Session>)
  {
    && (forall o :: o in r ==> o.session in ss)
    && forall i, j :: 0 <= i < j < |r| ==> IndexOf(ss, r[i].session) < IndexOf(ss, r[j].session)
  }

  /** Adding a new last session keeps an ordered offer list ordered, whether
      or not that session is offered at the end. */
  lemma OrderExtends(prev: seq<Offer>, init: seq<Session>, last: Session, n: nat, r: seq<Offer>)
    requires InSessionOrder(prev, init) && last !in init
    requires r == prev || r == prev + [Offer(last, n)]
    ensures InSessionOrder(r, init + [last])
  {
    var ss := init + [last];
    forall i | 0 <= i < |prev|
      ensures prev[i].session in ss && IndexOf(ss, prev[i].session) == IndexOf(init, prev[i].session) < |init|
    {
      assert prev[i] in prev;
      IndexOfInPrefix(init, last, prev[i].session);
    }
    assert IndexOf(ss, last) == |init|;
  }

  /** The offered sessions appear in the order of `ss`, each once. */
  lemma {:induction false} OffersFollowSessionOrder(sch: Schedule, ss: seq<Session>)
    requires Covers(sch, ss) && DistinctCodes(ss)
    ensures InSessionOrder(Offers(sch, ss), ss)
    decreases |ss|
  {
    if ss != [] {
      var init, last := ss[..|ss| - 1], ss[|ss| - 1];
      assert ss == init + [last];
      assert DistinctCodes(init);
      assert last !in init;
      OffersFollowSessionOrder(sch, init);
      OrderExtends(Offers(sch, init), init, last, |sch[last.code]|, Offers(sch, ss));
    }
  }

  /** The store after appending `rec` to the session `code` of `d`. */
  function Appended(st: Store, d: Date, code: Code, rec: Record): (r: Store)
    requires d in st && code in st[d]
    ensures r.Keys == st.Keys && r[d].Keys == st[d].Keys
    ensures r[d][code] == st[d][code] + [rec]
    ensures forall c :: c in st[d] && c != code ==> r[d][c] == st[d][c]
    ensures forall d' :: d' in st && d' != d ==> r[d'] == st[d']
  {
    st[d := st[d][code := st[d][code] + [rec]]]
  }

  /** Appending to a session below capacity keeps the store within capacity
      and shaped. */
  lemma AppendKeepsCapacity(st: Store, d: Date, code: Code, rec: Record)
    requires d in st && code in st[d] && |st[d][code]| < MaxBookings
    ensures WithinCapacity(st) ==> WithinCapacity(Appended(st, d, code, rec))
    ensures Shaped(st) ==> Shaped(Appended(st, d, code, rec))
  {
  }

  /** All three fields are filled in (a Python string is false when empty). */
  predicate Complete(rec: Record)
    ensures !Complete(rec) <==> "" in [rec.email, rec.schoolName, rec.groupName]
  {
    rec.email != "" && rec.schoolName != "" && rec.groupName != ""
  }

  /** One run of the booking page: the chosen date, the position of the
      session chosen in the offered list, whether the book button was
      pressed, and the three text fields. */
  datatype Request = Request(date: Date, pick: nat, pressed: bool, record: Record)

  /** What a run of the page ends with. */
  datatype Outcome =
    | NotWeekend           // the date is not a Saturday or a Sunday
    | FullyBooked          // every session of the date is full
    | Idle                 // the book button was not pressed
    | MissingFields        // a field was left empty
    | Booked(session: Session)

  /** The sessions the page offers for the date of `req`. */
  function OffersFor(st: Store, req: Request): (r: seq<Offer>)
    requires Shaped(st)
    ensures forall o :: o in r ==> o.session in Sessions && o.count == |ScheduleOf(st, req.date)[o.session.code]| < MaxBookings
  {
    Offers(ScheduleOf(st, req.date), Sessions)
  }

  /** The selection box only offers sessions that are open: the chosen
      position is one of the offered ones whenever there are any. */
  ghost predicate Admissible(st: Store, req: Request): (ok: bool)
    requires Shaped(st)
    ensures !IsWeekend(req.date) || OffersFor(st, req) == [] ==> ok
    ensures ok && IsWeekend(req.date) && OffersFor(st, req) != [] ==>
      && req.pick < |OffersFor(st, req)|
      && var o := OffersFor(st, req)[req.pick];
         o.session in Sessions && |ScheduleOf(st, req.date)[o.session.code]| < MaxBookings
  {
    IsWeekend(req.date) && OffersFor(st, req) != [] ==> req.pick < |OffersFor(st, req)|
  }

  /** The outcome of one run of the page and the saved store after it. */
  function Handle(st: Store, req: Request): (r: (Outcome, Store))
    requires Shaped(st) && Admissible(st, req)
    ensures Shaped(r.1)
    ensures WithinCapacity(st) ==> WithinCapacity(r.1)
    ensures !IsWeekend(req.date) ==> r.0 == NotWeekend
    ensures r.0 == FullyBooked <==> IsWeekend(req.date) && OffersFor(st, req) == []
    ensures r.0 == MissingFields <==> IsWeekend(req.date) && OffersFor(st, req) != [] && req.pressed && !Complete(req.record)
    ensures r.0.Booked? <==> IsWeekend(req.date) && OffersFor(st, req) != [] && req.pressed && Complete(req.record)
    ensures r.0.Booked? ==> r.0.session == OffersFor(st, req)[req.pick].session
    ensures r.0 == NotWeekend <==> !IsWeekend(req.date)
    ensures r.0 == Idle <==> IsWeekend(req.date) && OffersFor(st, req) != [] && !req.pressed
    ensures !r.0.Booked? ==> r.1 == st
    ensures r.0.Booked? ==>
      var d, s, before := req.date, r.0.session, ScheduleOf(st, req.date);
      && s in Sessions && |before[s.code]| < MaxBookings
      && r.1.Keys == st.Keys + {d}
      && r.1[d].Keys == SessionCodes()
      && r.1[d][s.code] == before[s.code] + [req.record]
      && (forall c :: c in before && c != s.code ==> r.1[d][c] == before[c])
      && (forall d' :: d' in st && d' != d ==> r.1[d'] == st[d'])
  {
    if !IsWeekend(req.date) then (NotWeekend, st)
    else
      var offers := OffersFor(st, req);
      if offers == [] then (FullyBooked, st)
      else if !req.pressed then (Idle, st)
      else if !Complete(req.record) then (MissingFields, st)
      else
        var chosen := offers[req.pick];
        assert chosen in offers;
        var ensured := Ensure(st, req.date);
        AppendKeepsCapacity(ensured, req.date, chosen.session.code, req.record);
        (Booked(chosen.session), Appended(ensured, req.date, chosen.session.code, req.record))
  }

  /** Every request of `reqs` is admissible in the store it meets. */
  ghost predicate Runnable(st: Store, reqs: seq<Request>)
    requires Shaped(st)
    decreases |reqs|
  {
    reqs == [] || (Admissible(st, reqs[0]) && Runnable(Handle(st, reqs[0]).1, reqs[1..]))
  }

  /** The saved store after the runs `reqs`, one after another. */
  ghost function Replay(st: Store, reqs: seq<Request>): (r: Store)
    requires Shaped(st) && Runnable(st, reqs)
    ensures Shaped(r)
    decreases |reqs|
  {
    if reqs == [] then st else Replay(Handle(st, reqs[0]).1, reqs[1..])
  }

  /** `b` keeps every date of `a`, and every session list of `a` is a prefix
      of the one in `b`: bookings are only ever appended. */
  ghost predicate Extends(a: Store, b: Store)
  {
    && a.Keys <= b.Keys
    && forall d, c :: d in a && c in a[d] ==> c in b[d] && a[d][c] <= b[d][c]
  }

  lemma ExtendsIsTransitive(a: Store, b: Store, c: Store)
    requires Extends(a, b) && Extends(b, c)
    ensures Extends(a, c)
  {
  }

  /** One run only adds: no date, session or record disappears or moves. */
  lemma HandleOnlyAppends(st: Store, req: Request)
    requires Shaped(st) && Admissible(st, req)
    ensures Extends(st, Handle(st, req).1)
  {
  }

  /** Any sequence of runs keeps every session within capacity. */
  lemma {:induction false} ReplayKeepsCapacity(st: Store, reqs: seq<Request>)
    requires Shaped(st) && WithinCapacity(st) && Runnable(st, reqs)
    ensures WithinCapacity(Replay(st, reqs))
    decreases |reqs|
  {
    if reqs != [] {
      ReplayKeepsCapacity(Handle(st, reqs[0]).1, reqs[1..]);
    }
  }

  /** Any sequence of runs only appends: counts never go down and no date is
      removed. */
  lemma {:induction false} ReplayOnlyAppends(st: Store, reqs: seq<Request>)
    requires Shaped(st) && Runnable(st, reqs)
    ensures Extends(st, Replay(st, reqs))
    decreases |reqs|
  {
    if reqs == [] {
      assert Replay(st, reqs) == st;
    } else {
      var next := Handle(st, reqs[0]).1;
      HandleOnlyAppends(st, reqs[0]);
      ReplayOnlyAppends(next, reqs[1..]);
      ExtendsIsTransitive(st, next, Replay(st, reqs));
    }
  }

  /** Starting from an empty store (no saved file), no session of any date
      ever holds more than `MaxBookings` records. */
  lemma CapacityFromEmptyStore(reqs: seq<Request>)
    requires Runnable(map[], reqs)
    ensures WithinCapacity(Replay(map[], reqs))
  {
    ReplayKeepsCapacity(map[], reqs);
  }

  /** A session that already holds `MaxBookings` records is never booked. */
  lemma FullSessionIsNeverBooked(st: Store, req: Request, s: Session)
    requires Shaped(st) && Admissible(st, req) && s in Sessions
    requires |ScheduleOf(st, req.date)[s.code]| >= MaxBookings
    ensures Handle(st, req).0 != Booked(s)
    ensures Handle(st, req).0.Booked? ==> Handle(st, req).1[req.date][s.code] == ScheduleOf(st, req.date)[s.code]
  {
  }

  /** On an empty store, a complete booking for Saturday 2024-06-08 in the
      first session succeeds and leaves exactly one record there. */
  lemma FirstSaturdayBooking()
    ensures
      var req := Request(739045, 0, true, Record("a@b.com", "S", "G"));
      var r := Handle(map[], req);
      && r.0 == Booked(Sessions[0])
      && r.1.Keys == {739045}
      && r.1[739045]["10_12"] == [req.record]
      && r.1[739045]["14_16"] == [] && r.1[739045]["16_18"] == []
  {
    var req := Request(739045, 0, true, Record("a@b.com", "S", "G"));
    var sch := ScheduleOf(map[], 739045);
    assert IsWeekend(739045);
    assert Sessions[0] in Sessions && Sessions[1] in Sessions && Sessions[2] in Sessions;
    assert Sessions[..1][..0] == [] && Sessions[..2][..1] == Sessions[..1] && Sessions[..3] == Sessions;
    assert Offers(sch, Sessions[..1]) == [Offer(Sessions[0], 0)];
    assert Offers(sch, Sessions[..2]) == [Offer(Sessions[0], 0), Offer(Sessions[1], 0)];
    assert OffersFor(map[], req)[0] == Offer(Sessions[0], 0);
  }
}
