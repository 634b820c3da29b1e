/** Whole runs of the limiter: any interleaving of requests, reservations, completions and
    eviction ticks under a monotone clock that is read inside the lock. */
module RateLimitRuns {
  import opened RateLimitSpec

  /** `tick` is the time an eviction was scheduled for; it may lag behind the clock `now`. */
  datatype Event =
    | Ask(key: string, maxRequests: int, duration: int, now: int)
    | Hold(key: string, maxRequests: int, duration: int, now: int)
    | Finish(ticket: nat, success: bool, now: int)
    | Sweep(tick: int, now: int)

  /** A reservation handed to a caller; `completed` is its `sync.Once`. */
  datatype Ticket = Ticket(key: string, completed: bool)

  datatype System = System(limiter: Limiter, tickets: seq<Ticket>, clock: int)

  datatype Config = Config(expiration: int, start: int)

  function Step(s: System, e: Event, expiration: int): (r: System)
    requires WellFormed(s.limiter)
    ensures WellFormed(r.limiter) && r.clock == e.now
  {
    match e
    case Ask(key, maxRequests, duration, now) =>
      TouchWellFormed(s.limiter, key, now);
      System(Request(s.limiter, key, maxRequests, duration, now), s.tickets, now)
    case Hold(key, maxRequests, duration, now) =>
      TouchWellFormed(s.limiter, key, now);
      System(Reserve(s.limiter, key, maxRequests, duration, now),
             if Admitted(s.limiter, key, maxRequests, duration, now)
             then s.tickets + [Ticket(key, false)] else s.tickets,
             now)
    case Finish(ticket, success, now) =>
      if ticket < |s.tickets| && !s.tickets[ticket].completed then
        var key := s.tickets[ticket].key;
        TouchWellFormed(s.limiter, key, now);
        System(Release(s.limiter, key, success, now), s.tickets[ticket := Ticket(key, true)], now)
      else s.(clock := now)
    case Sweep(tick, now) =>
      EvictWalkKeeps(s.limiter, tick, expiration);
      System(Evict(s.limiter, tick, expiration), s.tickets, now)
  }

  function Start(c: Config): System {
    System(Limiter(map[], [], map[]), [], c.start)
  }

  /** The state after a run of events. */
  function Exec(c: Config, es: seq<Event>): (s: System)
    ensures WellFormed(s.limiter)
  {
    if es == [] then Start(c)
    else Step(Exec(c, es[..|es| - 1]), es[|es| - 1], c.expiration)
  }

  /** The clock never runs backwards and no eviction tick comes from the future. */
  ghost predicate Legal(c: Config, es: seq<Event>) {
    es != [] ==>
      var n := |es| - 1;
      && Legal(c, es[..n])
      && Exec(c, es[..n]).clock <= es[n].now
      && (es[n].Sweep? ==> es[n].tick <= es[n].now)
  }

  // ----- the key map and the LRU list over every run -----

  lemma StepOrdered(s: System, e: Event, expiration: int)
    requires WellFormed(s.limiter) && Ordered(s.limiter, s.clock) && s.clock <= e.now
    ensures Ordered(Step(s, e, expiration).limiter, e.now)
  {
    var r := Step(s, e, expiration).limiter;
    if e.Sweep? {
      EvictOrdered(s.limiter, s.clock, e.tick, expiration);
    } else if e.Finish? && (e.ticket >= |s.tickets| || s.tickets[e.ticket].completed || !e.success) {
      OrderedTransfers(s.limiter, r, s.clock);
      assert Ordered(r, e.now);
    } else {
      var key := if e.Finish? then s.tickets[e.ticket].key else e.key;
      TouchOrdered(s.limiter, key, s.clock, e.now);
      OrderedTransfers(Touch(s.limiter, key, e.now), r, e.now);
    }
  }

  /** In every reachable state the map and the LRU list hold the same keys once each, sorted by last activity. */
  lemma {:induction false} RunOrdered(c: Config, es: seq<Event>)
    requires Legal(c, es)
    ensures WellFormed(Exec(c, es).limiter) && Ordered(Exec(c, es).limiter, Exec(c, es).clock)
  {
    if es != [] {
      var n := |es| - 1;
      RunOrdered(c, es[..n]);
      StepOrdered(Exec(c, es[..n]), es[n], c.expiration);
    }
  }

  /** The early-stopping sweep of any reachable state removes exactly the keys idle for the
      expiration time, and leaves every reservation in place. */
  lemma SweepExact(c: Config, es: seq<Event>, tick: int)
    requires Legal(c, es) && c.expiration > 0
    ensures var l, r := Exec(c, es).limiter, Evict(Exec(c, es).limiter, tick, c.expiration);
            && (forall k :: k in r.buckets <==> k in l.buckets && tick - l.buckets[k].lastActive < c.expiration)
            && (forall k :: k in r.buckets ==> r.buckets[k] == l.buckets[k])
            && r.reservations == l.reservations
  {
    RunOrdered(c, es);
    EvictExact(Exec(c, es).limiter, Exec(c, es).clock, tick, c.expiration);
  }

  // ----- what a bucket remembers of its key's full history -----

  /** Event `e` records a request for `key`: an allowed request, or the first completion of a
      reservation, reported successful. */
  predicate Records(s: System, e: Event, key: string) {
    match e
    case Ask(k, maxRequests, duration, now) => k == key && Allowed(s.limiter, k, maxRequests, duration, now)
    case Hold(_, _, _, _) => false
    case Finish(ticket, success, _) =>
      success && ticket < |s.tickets| && !s.tickets[ticket].completed && s.tickets[ticket].key == key
    case Sweep(_, _) => false
  }

  /** The seconds at which requests of `key` were recorded, none ever forgotten. */
  function History(c: Config, es: seq<Event>, key: string): seq<int> {
    if es == [] then []
    else
      var n := |es| - 1;
      var h := History(c, es[..n], key);
      if Records(Exec(c, es[..n]), es[n], key) then h + [Unix(es[n].now)] else h
  }

  /** The configured expiration covers the window, or eviction is off. */
  predicate WindowFits(expiration: int, duration: int) {
    expiration <= 0 || duration * NANOS_PER_SECOND <= expiration
  }

  /** Every admission check of `key` uses the same window. */
  ghost predicate UsesWindow(es: seq<Event>, key: string, duration: int) {
    forall i :: 0 <= i < |es| && (es[i].Ask? || es[i].Hold?) && es[i].key == key ==> es[i].duration == duration
  }

  /** A bucket's `times` are a suffix of the history; what they lack has left the window for good. */
  ghost predicate SuffixOf(times: seq<int>, h: seq<int>, second: int, duration: int) {
    var gone := |h| - |times|;
    && Sorted(h)
    && gone >= 0
    && h[gone..] == times
    && (forall i :: 0 <= i < |h| ==> h[i] <= second)
    && (forall i :: 0 <= i < gone ==> Expired(h[i], second, duration))
  }

  ghost predicate Remembers(s: System, h: seq<int>, key: string, duration: int) {
    && SuffixOf(Times(s.limiter, key), h, Unix(s.clock), duration)
    && (key in s.limiter.buckets ==>
          forall i :: 0 <= i < |h| ==> h[i] <= Unix(s.limiter.buckets[key].lastActive))
  }

  lemma UnixMonotone(a: int, b: int)
    requires a <= b
    ensures Unix(a) <= Unix(b)
  {
  }

  lemma UnixShift(a: int, b: int, seconds: int)
    requires a + seconds * NANOS_PER_SECOND <= b
    ensures Unix(a) + seconds <= Unix(b)
  {
    assert (a + seconds * NANOS_PER_SECOND) / NANOS_PER_SECOND == a / NANOS_PER_SECOND + seconds;
    UnixMonotone(a + seconds * NANOS_PER_SECOND, b);
  }

  lemma SuffixLater(times: seq<int>, h: seq<int>, second: int, later: int, duration: int)
    requires SuffixOf(times, h, second, duration) && second <= later
    ensures SuffixOf(times, h, later, duration)
  {
  }

  lemma SuffixPruned(times: seq<int>, h: seq<int>, second: int, duration: int)
    requires SuffixOf(times, h, second, duration)
    ensures Sorted(times)
    ensures RemoveExpired(times, second, duration) == Live(h, second, duration)
    ensures SuffixOf(Live(h, second, duration), h, second, duration)
  {
    var gone := |h| - |times|;
    assert h == h[..gone] + times;
    assert forall i :: 0 <= i < |times| ==> times[i] == h[gone + i];
    LiveConcat(h[..gone], times, second, duration);
    LiveAllExpired(h[..gone], second, duration);
    RemoveExpiredIsLive(times, second, duration);
    LiveIsSuffix(h, second, duration);
  }

  lemma SuffixEvicted(times: seq<int>, h: seq<int>, second: int, duration: int)
    requires SuffixOf(times, h, second, duration)
    requires forall i :: 0 <= i < |h| ==> Expired(h[i], second, duration)
    ensures SuffixOf([], h, second, duration)
  {
  }

  lemma SuffixAppend(times: seq<int>, h: seq<int>, second: int, duration: int)
    requires SuffixOf(times, h, second, duration)
    ensures SuffixOf(times + [second], h + [second], second, duration)
  {
    var gone := |h| - |times|;
    assert (h + [second])[gone..] == h[gone..] + [second];
  }

  /** Pruning yields the live part of the whole history. */
  lemma PrunedIsLive(s: System, h: seq<int>, key: string, duration: int, now: int)
    requires Remembers(s, h, key, duration) && s.clock <= now
    ensures RemoveExpired(Times(s.limiter, key), Unix(now), duration) == Live(h, Unix(now), duration)
  {
    UnixMonotone(s.clock, now);
    SuffixLater(Times(s.limiter, key), h, Unix(s.clock), Unix(now), duration);
    SuffixPruned(Times(s.limiter, key), h, Unix(now), duration);
  }

  /** What a check leaves of the times, and then the recorded request, is a suffix of the history. */
  lemma CheckedSuffix(s: System, h: seq<int>, key: string, duration: int, now: int)
    requires Remembers(s, h, key, duration) && s.clock <= now
    ensures var left := RemoveExpired(Times(s.limiter, key), Unix(now), duration);
      && SuffixOf(left, h, Unix(now), duration)
      && SuffixOf(left + [Unix(now)], h + [Unix(now)], Unix(now), duration)
  {
    hide RemoveExpired, Live;
    var second, times := Unix(now), Times(s.limiter, key);
    UnixMonotone(s.clock, now);
    SuffixLater(times, h, Unix(s.clock), second, duration);
    SuffixPruned(times, h, second, duration);
    SuffixAppend(Live(h, second, duration), h, second, duration);
  }

  lemma AskRemembers(s: System, h: seq<int>, e: Event, expiration: int)
    requires WellFormed(s.limiter) && s.clock <= e.now && e.Ask?
    requires Remembers(s, h, e.key, e.duration)
    ensures Remembers(Step(s, e, expiration),
                      if Records(s, e, e.key) then h + [Unix(e.now)] else h, e.key, e.duration)
  {
    CheckedSuffix(s, h, e.key, e.duration, e.now);
    RequestEffect(s.limiter, e.key, e.maxRequests, e.duration, e.now);
    hide RemoveExpired, Request, WellFormed, Unix;
  }

  lemma HoldRemembers(s: System, h: seq<int>, e: Event, expiration: int)
    requires WellFormed(s.limiter) && s.clock <= e.now && e.Hold?
    requires Remembers(s, h, e.key, e.duration)
    ensures Remembers(Step(s, e, expiration), h, e.key, e.duration)
  {
    CheckedSuffix(s, h, e.key, e.duration, e.now);
    ReserveEffect(s.limiter, e.key, e.maxRequests, e.duration, e.now);
    hide RemoveExpired, Reserve, Admitted, WellFormed, Unix;
  }

  lemma FinishRemembers(s: System, h: seq<int>, e: Event, key: string, duration: int, expiration: int)
    requires WellFormed(s.limiter) && s.clock <= e.now && e.Finish?
    requires Remembers(s, h, key, duration)
    ensures Remembers(Step(s, e, expiration),
                      if Records(s, e, key) then h + [Unix(e.now)] else h, key, duration)
  {
    UnixMonotone(s.clock, e.now);
    SuffixLater(Times(s.limiter, key), h, Unix(s.clock), Unix(e.now), duration);
    SuffixAppend(Times(s.limiter, key), h, Unix(e.now), duration);
    if e.ticket < |s.tickets| && !s.tickets[e.ticket].completed {
      ReleaseEffect(s.limiter, s.tickets[e.ticket].key, e.success, e.now);
    }
    hide Release, WellFormed, Unix;
  }

  /** Evicting a key loses only requests that can no longer count. */
  lemma SweepRemembers(s: System, h: seq<int>, e: Event, key: string, duration: int, expiration: int)
    requires WellFormed(s.limiter) && s.clock <= e.now && e.Sweep? && e.tick <= e.now
    requires WindowFits(expiration, duration)
    requires Remembers(s, h, key, duration)
    ensures Remembers(Step(s, e, expiration), h, key, duration)
  {
    UnixMonotone(s.clock, e.now);
    SuffixLater(Times(s.limiter, key), h, Unix(s.clock), Unix(e.now), duration);
    EvictWalkKeeps(s.limiter, e.tick, expiration);
    var r := Step(s, e, expiration).limiter;
    if key in s.limiter.buckets && key !in r.buckets {
      assert expiration > 0 && Idle(s.limiter.buckets[key], e.tick, expiration);
      UnixShift(s.limiter.buckets[key].lastActive, e.now, duration);
      SuffixEvicted(Times(s.limiter, key), h, Unix(e.now), duration);
    } else {
      assert Times(r, key) == Times(s.limiter, key);
    }
  }

  lemma OtherKeyRemembers(s: System, h: seq<int>, e: Event, key: string, duration: int, expiration: int)
    requires WellFormed(s.limiter) && s.clock <= e.now && (e.Ask? || e.Hold?) && e.key != key
    requires Remembers(s, h, key, duration)
    ensures Remembers(Step(s, e, expiration), h, key, duration)
  {
    UnixMonotone(s.clock, e.now);
    SuffixLater(Times(s.limiter, key), h, Unix(s.clock), Unix(e.now), duration);
    RequestEffect(s.limiter, e.key, e.maxRequests, e.duration, e.now);
    ReserveEffect(s.limiter, e.key, e.maxRequests, e.duration, e.now);
    hide RemoveExpired, Request, Reserve, Admitted, WellFormed, Unix, SuffixOf;
  }

  /** Over every run, evictions included, no bucket forgets a request that still counts. */
  lemma {:induction false} RunRemembers(c: Config, es: seq<Event>, key: string, duration: int)
    requires Legal(c, es) && WindowFits(c.expiration, duration) && UsesWindow(es, key, duration)
    ensures Remembers(Exec(c, es), History(c, es, key), key, duration)
  {
    if es != [] {
      var n := |es| - 1;
      RunRemembers(c, es[..n], key, duration);
      var s, e, h := Exec(c, es[..n]), es[n], History(c, es[..n], key);
      if e.Finish? {
        FinishRemembers(s, h, e, key, duration, c.expiration);
      } else if e.Sweep? {
        SweepRemembers(s, h, e, key, duration, c.expiration);
      } else if e.key == key && e.Ask? {
        AskRemembers(s, h, e, c.expiration);
      } else if e.key == key {
        HoldRemembers(s, h, e, c.expiration);
      } else {
        OtherKeyRemembers(s, h, e, key, duration, c.expiration);
      }
    }
  }

  // ----- Request -----

  /** The limiter one would write first: keep every accepted request and count the unexpired ones. */
  function SimpleHistory(es: seq<Event>, key: string): seq<int> {
    if es == [] then []
    else
      var n := |es| - 1;
      var h := SimpleHistory(es[..n], key);
      if es[n].Ask? && es[n].key == key && SimpleAllows(h, es[n]) then h + [Unix(es[n].now)] else h
  }

  predicate SimpleAllows(h: seq<int>, e: Event)
    requires e.Ask?
  {
    |Live(h, Unix(e.now), e.duration)| < e.maxRequests
  }

  /** `key` is never reserved. */
  ghost predicate RequestOnly(es: seq<Event>, key: string) {
    forall i :: 0 <= i < |es| && es[i].Hold? ==> es[i].key != key
  }

  lemma {:induction false} NoTicketsFor(c: Config, es: seq<Event>, key: string)
    requires RequestOnly(es, key)
    ensures forall t :: t in Exec(c, es).tickets ==> t.key != key
  {
    if es != [] {
      NoTicketsFor(c, es[..|es| - 1], key);
    }
  }

  lemma {:induction false} HistoryIsSimple(c: Config, es: seq<Event>, key: string, duration: int)
    requires Legal(c, es) && WindowFits(c.expiration, duration)
    requires UsesWindow(es, key, duration) && RequestOnly(es, key)
    ensures History(c, es, key) == SimpleHistory(es, key)
  {
    if es != [] {
      var n := |es| - 1;
      HistoryIsSimple(c, es[..n], key, duration);
      NoTicketsFor(c, es[..n], key);
      var s, e := Exec(c, es[..n]), es[n];
      if e.Ask? && e.key == key {
        RunRemembers(c, es[..n], key, duration);
        PrunedIsLive(s, History(c, es[..n], key), key, duration, e.now);
      } else if e.Finish? && e.ticket < |s.tickets| {
        assert s.tickets[e.ticket] in s.tickets;
      }
    }
  }

  /** In every run, evictions included, the limiter answers each request on `key` as the
      limiter that keeps its whole history would. */
  lemma RequestMatchesSimple(c: Config, es: seq<Event>, i: nat, key: string, duration: int)
    requires i < |es| && Legal(c, es[..i]) && Exec(c, es[..i]).clock <= es[i].now
    requires es[i].Ask? && es[i].key == key
    requires WindowFits(c.expiration, duration) && UsesWindow(es, key, duration) && RequestOnly(es, key)
    ensures Allowed(Exec(c, es[..i]).limiter, key, es[i].maxRequests, duration, es[i].now)
       <==> SimpleAllows(SimpleHistory(es[..i], key), es[i])
  {
    HistoryIsSimple(c, es[..i], key, duration);
    RunRemembers(c, es[..i], key, duration);
    PrunedIsLive(Exec(c, es[..i]), History(c, es[..i], key), key, duration, es[i].now);
  }

  /** Accepted request number i+M comes at least `duration` seconds after number i. */
  lemma {:induction false} AcceptedSpacing(c: Config, es: seq<Event>, key: string, limit: nat, duration: int, i: nat)
    requires Legal(c, es) && WindowFits(c.expiration, duration)
    requires UsesWindow(es, key, duration) && RequestOnly(es, key)
    requires forall j :: 0 <= j < |es| && es[j].Ask? && es[j].key == key ==> es[j].maxRequests == limit
    requires i + limit < |History(c, es, key)|
    ensures limit >= 1 && History(c, es, key)[i + limit] - History(c, es, key)[i] >= duration
  {
    assert es != [];
    var n := |es| - 1;
    var h, e := History(c, es[..n], key), es[n];
    if i + limit < |h| {
      AcceptedSpacing(c, es[..n], key, limit, duration, i);
    } else {
      NoTicketsFor(c, es[..n], key);
      var s := Exec(c, es[..n]);
      assert Records(s, e, key);
      assert e.Ask?;
      RunRemembers(c, es[..n], key, duration);
      PrunedIsLive(s, h, key, duration, e.now);
      LiveIsSuffix(h, Unix(e.now), duration);
    }
  }

  // ----- Reserve and Complete -----

  /** Reservations of `key` not yet completed. */
  function Outstanding(tickets: seq<Ticket>, key: string): nat {
    if tickets == [] then 0
    else (if tickets[0].key == key && !tickets[0].completed then 1 else 0) + Outstanding(tickets[1..], key)
  }

  lemma {:induction false} OutstandingAppend(tickets: seq<Ticket>, t: Ticket, key: string)
    ensures Outstanding(tickets + [t], key)
         == Outstanding(tickets, key) + (if t.key == key && !t.completed then 1 else 0)
  {
    if tickets == [] {
      assert tickets + [t] == [t];
    } else {
      assert (tickets + [t])[1..] == tickets[1..] + [t];
      OutstandingAppend(tickets[1..], t, key);
    }
  }

  lemma {:induction false} OutstandingComplete(tickets: seq<Ticket>, i: nat, key: string)
    requires i < |tickets| && !tickets[i].completed
    ensures Outstanding(tickets[i := Ticket(tickets[i].key, true)], key)
         == Outstanding(tickets, key) - (if tickets[i].key == key then 1 else 0)
  {
    var done := tickets[i := Ticket(tickets[i].key, true)];
    if i == 0 {
      assert done[1..] == tickets[1..];
    } else {
      assert done[1..] == tickets[1..][i - 1 := Ticket(tickets[i].key, true)];
      OutstandingComplete(tickets[1..], i - 1, key);
    }
  }

  /** A key's counter is the number of its uncompleted reservations, and absent when there are none. */
  ghost predicate CounterExact(s: System, key: string) {
    && Reserved(s.limiter, key) == Outstanding(s.tickets, key)
    && (key in s.limiter.reservations <==> Outstanding(s.tickets, key) > 0)
  }

  lemma StepCounter(s: System, e: Event, expiration: int, key: string)
    requires WellFormed(s.limiter) && CounterExact(s, key)
    ensures CounterExact(Step(s, e, expiration), key)
  {
    hide Outstanding, Request, Reserve, Release, EvictWalk, WellFormed, Admitted;
    match e
    case Ask(k, m, d, now) => RequestEffect(s.limiter, k, m, d, now);
    case Hold(k, m, d, now) =>
      ReserveEffect(s.limiter, k, m, d, now);
      OutstandingAppend(s.tickets, Ticket(k, false), key);
    case Finish(ticket, success, now) =>
      if ticket < |s.tickets| && !s.tickets[ticket].completed {
        ReleaseEffect(s.limiter, s.tickets[ticket].key, success, now);
        OutstandingComplete(s.tickets, ticket, key);
      }
    case Sweep(tick, _) => EvictWalkKeeps(s.limiter, tick, expiration);
  }

  /** In every run the per-key counter equals the number of uncompleted reservations, and a key
      with none has no counter: evictions and repeated completions do not touch it. */
  lemma {:induction false} CounterIsOutstanding(c: Config, es: seq<Event>, key: string)
    ensures CounterExact(Exec(c, es), key)
  {
    if es != [] {
      var n := |es| - 1;
      CounterIsOutstanding(c, es[..n], key);
      StepCounter(Exec(c, es[..n]), es[n], c.expiration, key);
    }
  }

  /** Completing a reservation again, with any outcome, changes nothing but the time. */
  lemma CompleteOnce(s: System, ticket: nat, first: bool, second: bool, now: int, later: int, expiration: int)
    requires WellFormed(s.limiter)
    ensures Step(Step(s, Finish(ticket, first, now), expiration), Finish(ticket, second, later), expiration)
         == Step(s, Finish(ticket, first, now), expiration).(clock := later)
  {
  }

  /** `key` is used only through reservations, all with one limit and one window. */
  ghost predicate ReserveOnly(es: seq<Event>, key: string, limit: int, duration: int) {
    && (forall i :: 0 <= i < |es| && es[i].Ask? ==> es[i].key != key)
    && (forall i :: 0 <= i < |es| && es[i].Hold? && es[i].key == key ==>
          es[i].maxRequests == limit && es[i].duration == duration)
  }

  /** Successes inside the window plus outstanding reservations never exceed the limit. */
  lemma {:induction false} ReservationBound(c: Config, es: seq<Event>, key: string, limit: int, duration: int)
    requires Legal(c, es) && WindowFits(c.expiration, duration) && ReserveOnly(es, key, limit, duration)
    ensures var s := Exec(c, es);
            |Live(History(c, es, key), Unix(s.clock), duration)| + Outstanding(s.tickets, key)
            <= if limit > 0 then limit else 0
  {
    if es != [] {
      var n := |es| - 1;
      ReservationBound(c, es[..n], key, limit, duration);
      var s, e, h := Exec(c, es[..n]), es[n], History(c, es[..n], key);
      UnixMonotone(s.clock, e.now);
      LiveShrinks(h, Unix(s.clock), Unix(e.now), duration);
      match e
      case Ask(_, _, _, _) =>
      case Sweep(_, _) =>
      case Hold(k, _, _, _) =>
        OutstandingAppend(s.tickets, Ticket(k, false), key);
        RunRemembers(c, es[..n], key, duration);
        PrunedIsLive(s, h, key, duration, e.now);
        CounterIsOutstanding(c, es[..n], key);
      case Finish(ticket, _, _) =>
        if ticket < |s.tickets| && !s.tickets[ticket].completed {
          OutstandingComplete(s.tickets, ticket, key);
          LiveConcat(h, [Unix(e.now)], Unix(e.now), duration);
        }
    }
  }
}
