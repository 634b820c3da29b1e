/** When the limiter keeps its promises: exactly if the expiration covers the window, or eviction is off. An idle key
    evicted sooner takes requests with it that still count. The limiter that the middleware shares is set up once,
    for 20 minutes, while the window of the model request limit is configured freely. */
module RateLimitWindow {
  import opened RateLimitSpec
  import opened RateLimitRuns
  import opened RateLimitReference

  ghost predicate LegalWith(c: Config, es: seq<Event>, expiration: int) {
    c.expiration == expiration && Legal(c, es)
  }

  /** A run that uses `key` through requests only, with one window. */
  ghost predicate RequestRun(c: Config, es: seq<Event>, key: string, expiration: int, duration: int) {
    LegalWith(c, es, expiration) && UsesWindow(es, key, duration) && RequestOnly(es, key)
  }

  /** Every request on `key` is answered as the limiter that keeps its whole history would. */
  ghost predicate AnswersAgree(c: Config, es: seq<Event>, key: string) {
    forall i :: 0 <= i < |es| && es[i].Ask? && es[i].key == key ==>
      (Allowed(Exec(c, es[..i]).limiter, key, es[i].maxRequests, es[i].duration, es[i].now)
       <==> SimpleAllows(SimpleHistory(es[..i], key), es[i]))
  }

  ghost predicate OneLimit(es: seq<Event>, key: string, limit: nat) {
    forall j :: 0 <= j < |es| && es[j].Ask? && es[j].key == key ==> es[j].maxRequests == limit
  }

  /** Accepted request number i+M comes at least the window after number i. */
  ghost predicate Spaced(h: seq<int>, limit: nat, duration: int) {
    forall i: nat :: i + limit < |h| ==> h[i + limit] - h[i] >= duration
  }

  /** Successes inside the window plus outstanding reservations are within the limit. */
  ghost predicate Bounded(c: Config, es: seq<Event>, key: string, limit: int, duration: int) {
    |Live(History(c, es, key), Unix(Exec(c, es).clock), duration)| + Outstanding(Exec(c, es).tickets, key)
    <= if limit > 0 then limit else 0
  }

  // ----- one event more -----

  lemma Snoc(c: Config, es: seq<Event>, e: Event, key: string)
    ensures var r, s := es + [e], Exec(c, es);
      && Exec(c, r) == Step(s, e, c.expiration)
      && History(c, r, key) == History(c, es, key) + (if Records(s, e, key) then [Unix(e.now)] else [])
      && (Legal(c, r) <==> Legal(c, es) && s.clock <= e.now && (e.Sweep? ==> e.tick <= e.now))
      && SimpleHistory(r, key)
         == SimpleHistory(es, key)
            + (if e.Ask? && e.key == key && SimpleAllows(SimpleHistory(es, key), e) then [Unix(e.now)] else [])
  {
    var r := es + [e];
    assert r[..|r| - 1] == es && r[|r| - 1] == e;
  }

  lemma {:induction false} LegalPrefix(c: Config, es: seq<Event>, i: nat)
    requires Legal(c, es) && i < |es|
    ensures Legal(c, es[..i]) && Exec(c, es[..i]).clock <= es[i].now
  {
    hide Exec;
    var n := |es| - 1;
    if i < n {
      LegalPrefix(c, es[..n], i);
      assert es[..n][..i] == es[..i] && es[..n][i] == es[i];
    }
  }

  // ----- runs that lose a request -----

  /** An expiration shorter than the window ends inside it. */
  lemma EndsInside(expiration: int, duration: int)
    requires !WindowFits(expiration, duration)
    ensures 0 < expiration && 0 <= Unix(expiration) < duration
  {
  }

  lemma OneLive(now: int, duration: int)
    requires now < duration
    ensures Live([0], now, duration) == [0]
  {
    LiveAllFresh([0], now, duration);
  }

  lemma NoSuffix(now: int, duration: int)
    requires now < duration
    ensures !SuffixOf([], [0], now, duration)
  {
    assert !Expired([0][0], now, duration);
  }

  /** After an event at time 0 left the key with its one request, the sweep at the expiration evicts it. */
  lemma SweepForgets(c: Config, es: seq<Event>, key: string)
    requires Legal(c, es) && c.expiration > 0 && Exec(c, es).clock == 0
    requires var l := Exec(c, es).limiter; key in l.buckets && l.buckets[key].lastActive == 0
    ensures var r := es + [Sweep(c.expiration, c.expiration)];
      && Legal(c, r) && Exec(c, r).clock == c.expiration && Exec(c, r).tickets == Exec(c, es).tickets
      && Times(Exec(c, r).limiter, key) == [] && Exec(c, r).limiter.reservations == Exec(c, es).limiter.reservations
      && History(c, r, key) == History(c, es, key) && SimpleHistory(r, key) == SimpleHistory(es, key)
  {
    hide Legal, Exec, History, SimpleHistory, WellFormed;
    Snoc(c, es, Sweep(c.expiration, c.expiration), key);
    SweepExact(c, es, c.expiration);
  }

  const KEY := "k"

  function FirstAsk(duration: int): seq<Event> {
    [Ask(KEY, 1, duration, 0)]
  }

  function LossyRequests(expiration: int, duration: int): seq<Event> {
    FirstAsk(duration) + [Sweep(expiration, expiration)]
  }

  /** A request at time 0, then the sweep: the history has the request, the limiter has forgotten it. */
  lemma RequestLost(expiration: int, duration: int)
    requires !WindowFits(expiration, duration)
    ensures var c, es := Config(expiration, 0), LossyRequests(expiration, duration);
      && RequestRun(c, es, KEY, expiration, duration) && OneLimit(es, KEY, 1) && Exec(c, es).clock == expiration
      && History(c, es, KEY) == [0] && SimpleHistory(es, KEY) == [0] && Times(Exec(c, es).limiter, KEY) == []
  {
    EndsInside(expiration, duration);
    var c, ask := Config(expiration, 0), Ask(KEY, 1, duration, 0);
    var start := Exec(c, []).limiter;
    Snoc(c, [], ask, KEY);
    assert [] + [ask] == FirstAsk(duration);
    RequestEffect(start, KEY, 1, duration, 0);
    assert Unix(0) == 0 && [] + [0] == [0];
    SweepForgets(c, FirstAsk(duration), KEY);
  }

  /** Another request at the expiration: the limiter allows what its history forbids. */
  lemma ForgottenRequest(expiration: int, duration: int)
    requires !WindowFits(expiration, duration)
    ensures var c := Config(expiration, 0);
      var es := LossyRequests(expiration, duration) + [Ask(KEY, 1, duration, expiration)];
      && RequestRun(c, es, KEY, expiration, duration) && OneLimit(es, KEY, 1) && !AnswersAgree(c, es, KEY)
      && History(c, es, KEY) != SimpleHistory(es, KEY) && !Spaced(History(c, es, KEY), 1, duration)
  {
    var c, before, e := Config(expiration, 0), LossyRequests(expiration, duration), Ask(KEY, 1, duration, expiration);
    var es := before + [e];
    EndsInside(expiration, duration);
    RequestLost(expiration, duration);
    OneLive(Unix(expiration), duration);
    assert es[..2] == before && es[2] == e;
    hide Legal, Exec, History, SimpleHistory, Live, Unix, Step;
    Snoc(c, before, e, KEY);
    assert Allowed(Exec(c, before).limiter, KEY, 1, duration, expiration);
    assert !SimpleAllows(SimpleHistory(before, KEY), e);
    var h := History(c, es, KEY);
    assert h == [0, Unix(expiration)];
    assert h[0 + 1] - h[0] < duration;
  }

  function LossyReservations(expiration: int, duration: int): seq<Event> {
    [Hold(KEY, 1, duration, 0)] + [Finish(0, true, 0)] + [Sweep(expiration, expiration)]
  }

  /** A first reservation at time 0 that completes at once leaves one request and no counter. */
  lemma HoldThenFinish(s: System, expiration: int, duration: int)
    requires s == System(Limiter(map[], [], map[]), [], 0)
    ensures var s1 := Step(s, Hold(KEY, 1, duration, 0), expiration);
      var s2 := Step(s1, Finish(0, true, 0), expiration);
      && s1.clock == 0 && s2.clock == 0 && s2.tickets == [Ticket(KEY, true)] && s2.limiter.reservations == map[]
      && KEY in s2.limiter.buckets && s2.limiter.buckets[KEY].lastActive == 0
      && !Records(s, Hold(KEY, 1, duration, 0), KEY) && Records(s1, Finish(0, true, 0), KEY)
  {
    var s1 := Step(s, Hold(KEY, 1, duration, 0), expiration);
    ReserveEffect(s.limiter, KEY, 1, duration, 0);
    assert s1.tickets == [Ticket(KEY, false)];
    ReleaseEffect(s1.limiter, KEY, true, 0);
    hide Reserve, Release;
    assert s1.limiter.reservations == map[KEY := 1];
  }

  lemma SuccessLost(expiration: int, duration: int)
    requires !WindowFits(expiration, duration)
    ensures var c, es := Config(expiration, 0), LossyReservations(expiration, duration);
      && Legal(c, es) && ReserveOnly(es, KEY, 1, duration) && Exec(c, es).clock == expiration
      && History(c, es, KEY) == [0] && Times(Exec(c, es).limiter, KEY) == []
      && Exec(c, es).tickets == [Ticket(KEY, true)] && Exec(c, es).limiter.reservations == map[]
  {
    EndsInside(expiration, duration);
    var c, hold, finish := Config(expiration, 0), Hold(KEY, 1, duration, 0), Finish(0, true, 0);
    var s0 := Exec(c, []);
    Snoc(c, [], hold, KEY);
    assert [] + [hold] == [hold];
    HoldThenFinish(s0, expiration, duration);
    hide Step, Exec, History, Legal;
    Snoc(c, [hold], finish, KEY);
    SweepForgets(c, [hold] + [finish], KEY);
  }

  /** A key without times and reservations gets a reservation. */
  lemma HoldAgain(s: System, expiration: int, duration: int, now: int)
    requires WellFormed(s.limiter) && Times(s.limiter, KEY) == [] && s.limiter.reservations == map[]
    requires s.tickets == [Ticket(KEY, true)]
    ensures Outstanding(Step(s, Hold(KEY, 1, duration, now), expiration).tickets, KEY) == 1
  {
    hide Outstanding, Reserve, WellFormed;
    assert Admitted(s.limiter, KEY, 1, duration, now);
    OutstandingAppend(s.tickets, Ticket(KEY, false), KEY);
    OutstandingAppend([], Ticket(KEY, true), KEY);
    assert [] + [Ticket(KEY, true)] == s.tickets;
    NoneOutstanding();
  }

  lemma NoneOutstanding()
    ensures Outstanding([], KEY) == 0
  {
  }

  lemma ReservesMore(es: seq<Event>, e: Event, limit: int, duration: int)
    requires ReserveOnly(es, KEY, limit, duration) && e.Hold? && e.maxRequests == limit && e.duration == duration
    ensures ReserveOnly(es + [e], KEY, limit, duration)
  {
  }

  /** Another reservation at the expiration: one success in the window and one reservation under limit 1. */
  lemma ForgottenSuccess(expiration: int, duration: int)
    requires !WindowFits(expiration, duration)
    ensures var c := Config(expiration, 0);
      var es := LossyReservations(expiration, duration) + [Hold(KEY, 1, duration, expiration)];
      && Legal(c, es) && ReserveOnly(es, KEY, 1, duration) && !Bounded(c, es, KEY, 1, duration)
  {
    var c, e := Config(expiration, 0), Hold(KEY, 1, duration, expiration);
    var before := LossyReservations(expiration, duration);
    EndsInside(expiration, duration);
    SuccessLost(expiration, duration);
    OneLive(Unix(expiration), duration);
    hide Legal, Exec, History, Live, Unix, Step, Outstanding, LossyReservations;
    HoldAgain(Exec(c, before), expiration, duration, expiration);
    ReservesMore(before, e, 1, duration);
    Snoc(c, before, e, KEY);
  }

  // ----- the exact condition -----

  /** Every run is answered as by full history exactly when the expiration covers the window. */
  lemma AnswersExact(expiration: int, duration: int)
    ensures WindowFits(expiration, duration) <==>
      forall c: Config, es: seq<Event>, key: string :: RequestRun(c, es, key, expiration, duration) ==>
        AnswersAgree(c, es, key)
  {
    if WindowFits(expiration, duration) {
      forall c: Config, es: seq<Event>, key: string | RequestRun(c, es, key, expiration, duration)
        ensures AnswersAgree(c, es, key)
      {
        forall i | 0 <= i < |es| && es[i].Ask? && es[i].key == key
          ensures Allowed(Exec(c, es[..i]).limiter, key, es[i].maxRequests, es[i].duration, es[i].now)
             <==> SimpleAllows(SimpleHistory(es[..i], key), es[i])
        {
          LegalPrefix(c, es, i);
          RequestMatchesSimple(c, es, i, key, duration);
        }
      }
    } else {
      ForgottenRequest(expiration, duration);
    }
  }

  /** The recorded requests of every run are those of full history exactly when it does. */
  lemma HistoryExact(expiration: int, duration: int)
    ensures WindowFits(expiration, duration) <==>
      forall c: Config, es: seq<Event>, key: string :: RequestRun(c, es, key, expiration, duration) ==>
        History(c, es, key) == SimpleHistory(es, key)
  {
    if WindowFits(expiration, duration) {
      forall c: Config, es: seq<Event>, key: string | RequestRun(c, es, key, expiration, duration)
        ensures History(c, es, key) == SimpleHistory(es, key)
      {
        HistoryIsSimple(c, es, key, duration);
      }
    } else {
      ForgottenRequest(expiration, duration);
    }
  }

  /** No bucket of any run forgets a request that still counts exactly when it does. */
  lemma MemoryExact(expiration: int, duration: int)
    ensures WindowFits(expiration, duration) <==>
      forall c: Config, es: seq<Event>, key: string :: LegalWith(c, es, expiration) && UsesWindow(es, key, duration) ==>
        Remembers(Exec(c, es), History(c, es, key), key, duration)
  {
    if WindowFits(expiration, duration) {
      forall c: Config, es: seq<Event>, key: string | LegalWith(c, es, expiration) && UsesWindow(es, key, duration)
        ensures Remembers(Exec(c, es), History(c, es, key), key, duration)
      {
        RunRemembers(c, es, key, duration);
      }
    } else {
      var c, es := Config(expiration, 0), LossyRequests(expiration, duration);
      RequestLost(expiration, duration);
      EndsInside(expiration, duration);
      hide Exec, Legal, History, Unix, UsesWindow;
      NoSuffix(Unix(expiration), duration);
      assert !Remembers(Exec(c, es), History(c, es, KEY), KEY, duration);
    }
  }

  /** Accepted requests of every run are spaced out exactly when it does. */
  lemma SpacingExact(expiration: int, duration: int)
    ensures WindowFits(expiration, duration) <==>
      forall c: Config, es: seq<Event>, key: string, limit: nat ::
        RequestRun(c, es, key, expiration, duration) && OneLimit(es, key, limit) ==>
        Spaced(History(c, es, key), limit, duration)
  {
    if WindowFits(expiration, duration) {
      forall c: Config, es: seq<Event>, key: string, limit: nat |
        RequestRun(c, es, key, expiration, duration) && OneLimit(es, key, limit)
        ensures Spaced(History(c, es, key), limit, duration)
      {
        forall i: nat | i + limit < |History(c, es, key)|
          ensures History(c, es, key)[i + limit] - History(c, es, key)[i] >= duration
        {
          AcceptedSpacing(c, es, key, limit, duration, i);
        }
      }
    } else {
      ForgottenRequest(expiration, duration);
    }
  }

  /** The check `e` comes after the run, on a key that keeps to one window. */
  ghost predicate ChecksAfter(c: Config, es: seq<Event>, e: Event, expiration: int, duration: int) {
    && LegalWith(c, es, expiration) && (e.Ask? || e.Hold?) && Exec(c, es).clock <= e.now
    && e.duration == duration && UsesWindow(es, e.key, duration)
  }

  /** The check is answered by what is in the window and, for a reservation, what is outstanding. */
  ghost predicate CountedRight(c: Config, es: seq<Event>, e: Event)
    requires e.Ask? || e.Hold?
  {
    var inWindow := |Live(History(c, es, e.key), Unix(e.now), e.duration)|;
    Answer(Exec(c, es), e) <==>
      inWindow + (if e.Hold? then Outstanding(Exec(c, es).tickets, e.key) else 0) < e.maxRequests
  }

  /** Every check of every run, request or reservation, is answered by that count exactly when it does. */
  lemma CountsExact(expiration: int, duration: int)
    ensures WindowFits(expiration, duration) <==>
      forall c: Config, es: seq<Event>, e: Event :: ChecksAfter(c, es, e, expiration, duration) ==>
        CountedRight(c, es, e)
  {
    if WindowFits(expiration, duration) {
      forall c: Config, es: seq<Event>, e: Event | ChecksAfter(c, es, e, expiration, duration)
        ensures CountedRight(c, es, e)
      {
        VerdictCounts(c, es, e);
      }
    } else {
      var c, es := Config(expiration, 0), LossyRequests(expiration, duration);
      var e := Ask(KEY, 1, duration, expiration);
      RequestLost(expiration, duration);
      EndsInside(expiration, duration);
      OneLive(Unix(expiration), duration);
      hide Exec, History, Legal, Unix, Live, UsesWindow;
      assert ChecksAfter(c, es, e, expiration, duration);
      assert !CountedRight(c, es, e);
    }
  }

  /** Reservations of every run stay within the limit exactly when it does. */
  lemma BoundExact(expiration: int, duration: int)
    ensures WindowFits(expiration, duration) <==>
      forall c: Config, es: seq<Event>, key: string, limit: int ::
        LegalWith(c, es, expiration) && ReserveOnly(es, key, limit, duration) ==>
        Bounded(c, es, key, limit, duration)
  {
    if WindowFits(expiration, duration) {
      forall c: Config, es: seq<Event>, key: string, limit: int |
        LegalWith(c, es, expiration) && ReserveOnly(es, key, limit, duration)
        ensures Bounded(c, es, key, limit, duration)
      {
        ReservationBound(c, es, key, limit, duration);
      }
    } else {
      ForgottenSuccess(expiration, duration);
    }
  }
}
