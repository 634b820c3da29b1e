/** What a cancellation stops in the worker pool of controller/channel-test.go, how many tests run at once, and the
    pause between two tests of one worker. */
module WorkerPoolCancel {
  import opened WorkerPool

  // ----- after the cancellation -----

  /** How a state `t` may look after the cancelled state `s`: nobody has started a test since, a job that was received
      but not yet checked is still there or dropped by its worker, and no progress was reported. */
  ghost predicate Since(s: State, t: State) {
    && t.cancelled && |t.workers| == |s.workers| && t.reports == s.reports
    && (forall w :: 0 <= w < |t.workers| && t.workers[w].Running? ==> t.workers[w] == s.workers[w])
    && (forall i :: i in t.ran ==> i in s.ran || RunningAt(s, i))
    && (forall w :: 0 <= w < |s.workers| && s.workers[w].Received? ==>
          t.workers[w] == s.workers[w] || (t.workers[w].Exited? && s.workers[w].job in t.dropped))
  }

  ghost predicate RunningAt(s: State, i: nat) {
    exists w :: 0 <= w < |s.workers| && s.workers[w] == Running(i)
  }

  lemma SinceStep(c: Config, s: State, t: State, a: Step)
    requires Since(s, t) && Enabled(c, t, a)
    ensures Since(s, Apply(c, t, a))
  {
    WorkersAfter(c, t, a);
    if a.WorkerRuns? {
      assert s.workers[a.w] == Running(t.workers[a.w].job);
    }
  }

  lemma {:induction false} SinceRun(c: Config, run: seq<Step>, k: nat)
    requires Legal(c, run) && k <= |run| && Legal(c, run[..k]) && After(c, run[..k]).cancelled
    ensures Since(After(c, run[..k]), After(c, run))
  {
    if k == |run| {
      assert run[..k] == run;
    } else {
      var n := |run| - 1;
      assert run[..n][..k] == run[..k];
      SinceRun(c, run[..n], k);
      hide Since;
      SinceStep(c, After(c, run[..k]), After(c, run[..n]), run[n]);
    }
  }

  /** Nothing starts after a cancellation: a channel run by the end had been run, or was being run, when the context
      was cancelled, so no channel handed out later is ever run; and no progress is reported any more. */
  lemma NothingStartsAfterCancel(c: Config, run: seq<Step>, k: nat, i: nat)
    requires Legal(c, run) && k <= |run| && Legal(c, run[..k]) && After(c, run[..k]).cancelled
    ensures var s, t := After(c, run[..k]), After(c, run);
      && (i in t.ran ==> i in s.ran || RunningAt(s, i))
      && (i in t.ran ==> i < s.next)
      && t.reports == s.reports
  {
    SinceRun(c, run, k);
    RunInv(c, run[..k]);
    var s := After(c, run[..k]);
    hide After, Legal;
    if i in s.ran {
      assert HasResult(s, i);
    }
  }

  /** A job received but not yet checked when the context is cancelled is never run or counted: its worker still holds
      it, or has dropped it and quit. */
  lemma ReceivedIsDropped(c: Config, run: seq<Step>, k: nat, w: nat)
    requires Legal(c, run) && k <= |run| && Legal(c, run[..k]) && After(c, run[..k]).cancelled
    requires w < |After(c, run[..k]).workers| && After(c, run[..k]).workers[w].Received?
    ensures var i, t := After(c, run[..k]).workers[w].job, After(c, run);
      && w < |t.workers| && (t.workers[w] == Received(i) || (t.workers[w].Exited? && i in t.dropped))
      && i !in t.ran && i !in t.reduced
      && (Finished(t) ==> i in t.dropped)
  {
    SinceRun(c, run, k);
    RunInv(c, run);
    var i, t := After(c, run[..k]).workers[w].job, After(c, run);
    hide After, Legal, Since;
    assert t.workers[w] == Received(i) ==> Held(t, i);
    UnfinishedHasNoResult(c, t, w, i);
  }

  lemma UnfinishedHasNoResult(c: Config, t: State, w: nat, i: nat)
    requires Placed(c, t) && w < |t.workers| && (t.workers[w] == Received(i) || i in t.dropped)
    ensures !HasResult(t, i)
  {
    if t.workers[w] == Received(i) {
      assert Held(t, i);
    }
  }

  // ----- how many at once -----

  /** There are never more workers than the concurrency or the channels, so no more tests run at once. */
  lemma ConcurrencyBound(c: Config, run: seq<Step>)
    requires Legal(c, run)
    ensures var n := |After(c, run).workers|; n <= c.concurrency && n <= |c.jobs|
  {
    RunInv(c, run);
  }

  /** The run that hands one channel to each of `n` workers. */
  function HandAll(n: nat): seq<Step> {
    if n == 0 then [] else HandAll(n - 1) + [Hand(n - 1)]
  }

  /** The first `n` workers have received one channel each, in order. */
  ghost predicate Handed(c: Config, s: State, n: nat) {
    && s.next == n && (s.jobsClosed <==> |c.jobs| == 0) && |s.workers| == |Init(c).workers|
    && (forall w :: 0 <= w < |s.workers| ==> s.workers[w] == if w < n then Received(w) else Waiting)
  }

  lemma HandNext(c: Config, s: State, n: nat)
    requires Handed(c, s, n) && n < c.concurrency && n < |c.jobs|
    ensures Enabled(c, s, Hand(n)) && Handed(c, Apply(c, s, Hand(n)), n + 1)
  {
  }

  lemma {:induction false} HandAllLegal(c: Config, n: nat)
    requires n <= c.concurrency && n <= |c.jobs|
    ensures |HandAll(n)| == n && Legal(c, HandAll(n)) && Handed(c, After(c, HandAll(n)), n)
  {
    if n > 0 {
      HandAllLegal(c, n - 1);
      var run := HandAll(n);
      assert run[..n - 1] == HandAll(n - 1) && run[n - 1] == Hand(n - 1);
      HandNext(c, After(c, HandAll(n - 1)), n - 1);
      hide Handed, Enabled, Apply;
    }
  }

  /** As many workers as the concurrency, or as there are channels, hold a channel each. */
  ghost predicate AllBusy(c: Config, s: State) {
    && (|s.workers| == c.concurrency || |s.workers| == |c.jobs|)
    && forall w :: 0 <= w < |s.workers| ==> s.workers[w] == Received(w)
  }

  /** And that many can be busy at once. */
  lemma ConcurrencyReached(c: Config)
    ensures exists run :: Legal(c, run) && AllBusy(c, After(c, run))
  {
    var n := |Init(c).workers|;
    HandAllLegal(c, n);
    assert AllBusy(c, After(c, HandAll(n)));
  }

  // ----- the pause between two tests -----

  function CountSteps(run: seq<Step>, a: Step): nat {
    if run == [] then 0 else CountSteps(run[..|run| - 1], a) + if run[|run| - 1] == a then 1 else 0
  }

  /** How many results a worker has delivered and how many pauses it has completed. */
  ghost predicate Paces(c: Config, x: Worker, delivered: nat, paused: nat) {
    if !c.paced then !x.Pausing? && paused == 0
    else if x.Pausing? then delivered == paused + 1
    else if x.Exited? then paused <= delivered <= paused + 1
    else delivered == paused
  }

  lemma PaceStep(c: Config, s: State, a: Step, w: nat, delivered: nat, paused: nat)
    requires Enabled(c, s, a) && w < |s.workers| && Paces(c, s.workers[w], delivered, paused)
    ensures var r := Apply(c, s, a);
      && |r.workers| == |s.workers|
      && Paces(c, r.workers[w], delivered + (if a == Deliver(w) then 1 else 0),
               paused + (if a == PauseEnds(w) then 1 else 0))
  {
    WorkersAfter(c, s, a);
    if !OfWorker(a) || a.w != w {
      hide Apply, Enabled;
      assert Apply(c, s, a).workers[w] == s.workers[w];
    }
  }

  lemma SameWorkers(c: Config, s: State, a: Step)
    requires Enabled(c, s, a)
    ensures |Apply(c, s, a).workers| == |s.workers|
  {
  }

  /** With a request interval, each delivered result is followed by a pause of its worker that ends before the worker
      takes another channel, unless the worker quits in it; without one no worker ever pauses. */
  lemma {:induction false} PauseBetween(c: Config, run: seq<Step>, w: nat)
    requires Legal(c, run) && w < |After(c, run).workers|
    ensures Paces(c, After(c, run).workers[w], CountSteps(run, Deliver(w)), CountSteps(run, PauseEnds(w)))
  {
    if run != [] {
      var n := |run| - 1;
      var s, a := After(c, run[..n]), run[n];
      SameWorkers(c, s, a);
      hide Paces, Apply, Enabled;
      PauseBetween(c, run[..n], w);
      PaceStep(c, s, a, w, CountSteps(run[..n], Deliver(w)), CountSteps(run[..n], PauseEnds(w)));
    }
  }
}
