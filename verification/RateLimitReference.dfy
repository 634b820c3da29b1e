/** The limiter one would write first: it keeps every recorded request and every reservation for ever and only counts.
    While every key keeps to one window that the expiration covers, the real limiter answers exactly like it. */
module RateLimitReference {
  import opened RateLimitSpec
  import opened RateLimitRuns

  datatype Book = Book(times: map<string, seq<int>>, tickets: seq<Ticket>)

  function Recorded(b: Book, key: string): seq<int> {
    if key in b.times then b.times[key] else []
  }

  function Note(b: Book, key: string, now: int): Book {
    b.(times := b.times[key := Recorded(b, key) + [Unix(now)]])
  }

  /** Requests of `key` in the window. */
  function InWindow(b: Book, key: string, duration: int, now: int): nat {
    |Live(Recorded(b, key), Unix(now), duration)|
  }

  /** A request needs room among the recorded ones, a reservation room among those and the running ones. */
  predicate Grants(b: Book, e: Event) {
    match e
    case Ask(key, limit, duration, now) => InWindow(b, key, duration, now) < limit
    case Hold(key, limit, duration, now) => InWindow(b, key, duration, now) + Outstanding(b.tickets, key) < limit
    case _ => false
  }

  function Next(b: Book, e: Event): Book {
    match e
    case Ask(key, _, _, now) => if Grants(b, e) then Note(b, key, now) else b
    case Hold(key, _, _, _) => if Grants(b, e) then b.(tickets := b.tickets + [Ticket(key, false)]) else b
    case Finish(i, success, now) =>
      if i < |b.tickets| && !b.tickets[i].completed then
        var done := b.(tickets := b.tickets[i := Ticket(b.tickets[i].key, true)]);
        if success then Note(done, b.tickets[i].key, now) else done
      else b
    case Sweep(_, _) => b
  }

  function Kept(es: seq<Event>): Book {
    if es == [] then Book(map[], []) else Next(Kept(es[..|es| - 1]), es[|es| - 1])
  }

  /** Every check of a key uses that key's window, and the expiration covers it or eviction is off. */
  ghost predicate WindowsFit(es: seq<Event>, windows: map<string, int>, expiration: int) {
    forall i :: 0 <= i < |es| && (es[i].Ask? || es[i].Hold?) ==>
      es[i].key in windows && es[i].duration == windows[es[i].key] && WindowFits(expiration, es[i].duration)
  }

  /** The verdict of the real limiter. */
  predicate Answer(s: System, e: Event) {
    match e
    case Ask(key, limit, duration, now) => Allowed(s.limiter, key, limit, duration, now)
    case Hold(key, limit, duration, now) => Admitted(s.limiter, key, limit, duration, now)
    case _ => false
  }

  /** A check of any kind, whatever mixture of uses led there, counts what the full history counts: a request is
      allowed just if fewer than the limit are in the window, a reservation is handed out just if the requests in
      the window and the outstanding reservations are together below it. */
  lemma VerdictCounts(c: Config, es: seq<Event>, e: Event)
    requires Legal(c, es) && Exec(c, es).clock <= e.now && (e.Ask? || e.Hold?)
    requires UsesWindow(es, e.key, e.duration) && WindowFits(c.expiration, e.duration)
    ensures var inWindow := |Live(History(c, es, e.key), Unix(e.now), e.duration)|;
      Answer(Exec(c, es), e) <==>
        inWindow + (if e.Hold? then Outstanding(Exec(c, es).tickets, e.key) else 0) < e.maxRequests
  {
    RunRemembers(c, es, e.key, e.duration);
    PrunedIsLive(Exec(c, es), History(c, es, e.key), e.key, e.duration, e.now);
    CounterIsOutstanding(c, es, e.key);
  }

  /** A reservation is handed out exactly when successes in the window and outstanding reservations leave room. */
  lemma ReservationExact(c: Config, es: seq<Event>, key: string, limit: int, duration: int, now: int)
    requires Legal(c, es) && Exec(c, es).clock <= now
    requires UsesWindow(es, key, duration) && WindowFits(c.expiration, duration)
    ensures var s := Exec(c, es);
      var room := |Live(History(c, es, key), Unix(now), duration)| + Outstanding(s.tickets, key) < limit;
      Exec(c, es + [Hold(key, limit, duration, now)]).tickets == s.tickets + if room then [Ticket(key, false)] else []
  {
    var e := Hold(key, limit, duration, now);
    VerdictCounts(c, es, e);
    assert (es + [e])[..|es|] == es;
    hide Reserve, Live, Outstanding, History, Admitted;
  }

  /** The book and the limiter agree on what was recorded and handed out. */
  ghost predicate Same(c: Config, es: seq<Event>) {
    && Kept(es).tickets == Exec(c, es).tickets
    && forall key :: Recorded(Kept(es), key) == History(c, es, key)
  }

  lemma SameNext(c: Config, es: seq<Event>, windows: map<string, int>)
    requires es != [] && Legal(c, es) && WindowsFit(es, windows, c.expiration) && Same(c, es[..|es| - 1])
    ensures Grants(Kept(es[..|es| - 1]), es[|es| - 1]) <==> Answer(Exec(c, es[..|es| - 1]), es[|es| - 1])
    ensures Same(c, es)
  {
    var n := |es| - 1;
    var front, e := es[..n], es[n];
    if e.Ask? || e.Hold? {
      assert UsesWindow(front, e.key, e.duration);
      VerdictCounts(c, front, e);
      assert Recorded(Kept(front), e.key) == History(c, front, e.key);
    }
    hide Live, Outstanding, Allowed, Admitted, WellFormed, Request, Reserve, Release, Legal, UsesWindow, WindowsFit;
    forall key
      ensures Recorded(Kept(es), key) == History(c, es, key)
    {
      assert Recorded(Kept(front), key) == History(c, front, key);
    }
  }

  lemma WindowsFitFront(es: seq<Event>, windows: map<string, int>, expiration: int)
    requires es != [] && WindowsFit(es, windows, expiration)
    ensures WindowsFit(es[..|es| - 1], windows, expiration)
  {
  }

  lemma LegalFront(c: Config, es: seq<Event>)
    requires es != [] && Legal(c, es)
    ensures Legal(c, es[..|es| - 1])
  {
    hide Exec;
  }

  lemma {:induction false} SameRun(c: Config, es: seq<Event>, windows: map<string, int>)
    requires Legal(c, es) && WindowsFit(es, windows, c.expiration)
    ensures Same(c, es)
  {
    if es != [] {
      LegalFront(c, es);
      WindowsFitFront(es, windows, c.expiration);
      hide Legal, WindowsFit, Same;
      SameRun(c, es[..|es| - 1], windows);
      SameNext(c, es, windows);
    }
  }

  /** In every run, mixed uses and evictions included, the limiter hands out, records and answers exactly like the
      limiter that keeps everything. */
  lemma {:induction false} LimiterIsReference(c: Config, es: seq<Event>, windows: map<string, int>, i: nat)
    requires Legal(c, es) && WindowsFit(es, windows, c.expiration)
    ensures Same(c, es)
    ensures i < |es| ==> (Answer(Exec(c, es[..i]), es[i]) <==> Grants(Kept(es[..i]), es[i]))
    decreases |es|
  {
    SameRun(c, es, windows);
    if i < |es| {
      var n := |es| - 1;
      LegalFront(c, es);
      WindowsFitFront(es, windows, c.expiration);
      hide Legal, WindowsFit, Same, Answer, Grants, Kept, Exec;
      if i == n {
        SameRun(c, es[..n], windows);
        SameNext(c, es, windows);
      } else {
        assert es[..n][..i] == es[..i] && es[..n][i] == es[i];
        LimiterIsReference(c, es[..n], windows, i);
      }
    }
  }

  // ----- when a key was last used -----

  datatype Instant = Never | AtTime(t: int)

  /** The latest check of `key`, granted or not, or recorded completion. */
  function LastUse(c: Config, es: seq<Event>, key: string): Instant {
    if es == [] then Never
    else
      var n := |es| - 1;
      var e := es[n];
      if ((e.Ask? || e.Hold?) && e.key == key) || Records(Exec(c, es[..n]), e, key) then AtTime(e.now)
      else LastUse(c, es[..n], key)
  }

  /** In every run a stored key was last active when it was last used. */
  lemma {:induction false} ActivityExact(c: Config, es: seq<Event>, key: string)
    ensures var l := Exec(c, es).limiter;
      key in l.buckets ==> LastUse(c, es, key) == AtTime(l.buckets[key].lastActive)
  {
    if es != [] {
      var n := |es| - 1;
      ActivityExact(c, es[..n], key);
      var s, e := Exec(c, es[..n]), es[n];
      hide Request, Reserve, Release, EvictWalk, WellFormed, Allowed, Admitted, RemoveExpired;
      match e
      case Ask(k, m, d, now) => RequestEffect(s.limiter, k, m, d, now);
      case Hold(k, m, d, now) => ReserveEffect(s.limiter, k, m, d, now);
      case Finish(i, success, now) =>
        if i < |s.tickets| && !s.tickets[i].completed {
          ReleaseEffect(s.limiter, s.tickets[i].key, success, now);
        }
      case Sweep(tick, _) => EvictWalkKeeps(s.limiter, tick, c.expiration);
    }
  }

  /** A sweep keeps exactly the stored keys used less than the expiration before its tick. */
  lemma SweepByUse(c: Config, es: seq<Event>, tick: int, key: string)
    requires Legal(c, es) && c.expiration > 0 && key in Exec(c, es).limiter.buckets
    ensures LastUse(c, es, key).AtTime?
    ensures key in Evict(Exec(c, es).limiter, tick, c.expiration).buckets
       <==> tick - LastUse(c, es, key).t < c.expiration
  {
    hide Evict, Exec, LastUse;
    ActivityExact(c, es, key);
    SweepExact(c, es, tick);
  }
}
