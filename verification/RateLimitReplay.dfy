/** Runs of the limiter object: performing any sequence of events on an InMemoryRateLimiter takes it through the states
    of RateLimitRuns, with the same verdicts, so the theorems about runs are theorems about the object. */
module RateLimitReplay {
  import opened OrderedSets
  import opened RateLimitSpec
  import opened RateLimitRuns
  import opened RateLimitReference
  import opened RateLimiter

  /** The handed-out reservations are those of the run, and none is part of the limiter. */
  ghost predicate SameTickets(l: InMemoryRateLimiter, held: seq<Reservation>, tickets: seq<Ticket>)
    reads l, held
  {
    && |held| == |tickets| && Distinct(held)
    && forall i :: 0 <= i < |held| ==>
         && held[i].limiter == l && held[i] !in l.Repr
         && held[i].key == tickets[i].key && held[i].completed == tickets[i].completed
  }

  /** The limiter and its reservations are in the state `s` of a run. */
  ghost predicate InState(l: InMemoryRateLimiter, held: seq<Reservation>, s: System)
    reads l, l.Repr, held
  {
    l.Valid() && l.state == s.limiter && SameTickets(l, held, s.tickets)
  }

  method Perform(l: InMemoryRateLimiter, held: seq<Reservation>, e: Event, ghost s: System)
    returns (after: seq<Reservation>, granted: bool)
    requires InState(l, held, s) && WellFormed(s.limiter)
    modifies l.Repr, held
    ensures InState(l, after, Step(s, e, old(l.expiration))) && l.expiration == old(l.expiration)
    ensures fresh(l.Repr - old(l.Repr)) && forall i :: 0 <= i < |after| ==> after[i] in held || fresh(after[i])
    ensures granted == Answer(s, e)
  {
    hide InMemoryRateLimiter.Valid, WellFormed, Request, Reserve, Release, Evict, Allowed, Admitted;
    after, granted := held, false;
    match e
    case Ask(key, maxRequests, duration, now) =>
      granted := l.Request(key, maxRequests, duration, now);
    case Hold(key, maxRequests, duration, now) =>
      var r := l.Reserve(key, maxRequests, duration, now);
      if r != null {
        granted, after := true, held + [r];
      }
    case Finish(ticket, success, now) =>
      if ticket < |held| {
        Complete(held[ticket], success, now);
      }
    case Sweep(tick, now) =>
      l.DeleteExpiredEntries(tick);
  }

  lemma ExecNext(c: Config, es: seq<Event>, i: nat)
    requires i < |es|
    ensures Exec(c, es[..i + 1]) == Step(Exec(c, es[..i]), es[i], c.expiration)
  {
    assert es[..i + 1][..i] == es[..i] && es[..i + 1][i] == es[i];
  }

  method NewLimiter(c: Config) returns (l: InMemoryRateLimiter)
    ensures fresh(l) && fresh(l.Repr) && InState(l, [], Exec(c, [])) && l.expiration == c.expiration
  {
    l := new InMemoryRateLimiter();
    l.Init(c.expiration);
    hide InMemoryRateLimiter.Valid;
  }

  /** Any run, legal or not, performed on a new limiter. */
  method Replay(c: Config, es: seq<Event>)
    returns (l: InMemoryRateLimiter, held: seq<Reservation>, verdicts: seq<bool>)
    ensures fresh(l) && InState(l, held, Exec(c, es)) && l.expiration == c.expiration
    ensures |verdicts| == |es| && forall i :: 0 <= i < |es| ==> verdicts[i] == Answer(Exec(c, es[..i]), es[i])
  {
    hide InState, Answer, Exec, Step;
    l := NewLimiter(c);
    held, verdicts := [], [];
    for i := 0 to |es|
      invariant InState(l, held, Exec(c, es[..i])) && l.expiration == c.expiration
      invariant fresh(l) && fresh(l.Repr) && fresh(held)
      invariant |verdicts| == i && forall j :: 0 <= j < i ==> verdicts[j] == Answer(Exec(c, es[..j]), es[j])
    {
      ExecNext(c, es, i);
      ghost var s := Exec(c, es[..i]);
      var granted;
      held, granted := Perform(l, held, es[i], s);
      verdicts := verdicts + [granted];
    }
    assert es[..|es|] == es;
  }
}
