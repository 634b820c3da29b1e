/** runChannelTestWorkers of controller/channel-test.go as a step relation: a producer, bounded
    workers, a closer and the reducing caller over unbuffered channels, with cancellation possible
    at any moment. A send on an unbuffered channel is one joint step of sender and receiver. */
module WorkerPool {

  datatype Summary = Summary(tested: int, succeeded: int, failed: int, disabled: int, enabled: int)

  const ZERO := Summary(0, 0, 0, 0, 0)

  function Add(a: Summary, b: Summary): Summary {
    Summary(a.tested + b.tested, a.succeeded + b.succeeded, a.failed + b.failed,
            a.disabled + b.disabled, a.enabled + b.enabled)
  }

  /** A listed channel: a nil pointer, or a channel that may be manually disabled. */
  datatype Job = NilJob | Channel(manuallyDisabled: bool)

  /** The arguments of one call. `outcome[i]` is what `run` returns for channel `i`;
      `concurrency` is already normalised; `paced` says that a request interval is set. */
  datatype Config = Config(jobs: seq<Job>, outcome: seq<Summary>, concurrency: nat, paced: bool)

  ghost predicate ValidConfig(c: Config) {
    |c.outcome| == |c.jobs| && c.concurrency >= 1
  }

  predicate Runnable(c: Config, i: nat) {
    i < |c.jobs| && c.jobs[i].Channel? && !c.jobs[i].manuallyDisabled
  }

  function ResultOf(c: Config, i: nat): Summary {
    if Runnable(c, i) && i < |c.outcome| then c.outcome[i] else ZERO
  }

  /** Where a worker goroutine stands: at its select, holding a received job before the context
      check, running it, offering its result, pausing, or gone. */
  datatype Worker = Waiting | Received(job: nat) | Running(job: nat) | Sending(job: nat) | Pausing | Exited

  predicate Busy(w: Worker) {
    w.Received? || w.Running? || w.Sending?
  }

  /** Where the reducing caller stands: at its receive, with a result it has yet to add up, or before the
      context check that decides about its progress report. */
  datatype Caller = Ranging | Got(job: nat) | Added

  /** `next` is the producer's range position. `ran`, `dropped` and `reduced` record what became of
      each job; `reports` the progress reports made. */
  datatype State = State(
    cancelled: bool, next: nat, jobsClosed: bool, workers: seq<Worker>, resultsClosed: bool, caller: Caller,
    returned: bool, summary: Summary, processed: nat, reports: seq<nat>,
    ran: seq<nat>, dropped: set<nat>, reduced: set<nat>)

  function WorkerCount(c: Config): nat {
    if c.concurrency < |c.jobs| then c.concurrency else |c.jobs|
  }

  /** The call has made its first report; with no channels it returns at once. */
  function Init(c: Config): State {
    var none := |c.jobs| == 0;
    State(false, 0, none, seq(WorkerCount(c), _ => Waiting), none, Ranging, none, ZERO, 0, [0], [], {}, {})
  }

  datatype Step =
    | Cancel                     // the environment cancels the context
    | Hand(w: nat)               // rendezvous on jobs: the producer hands its next job to worker w
    | ProducerQuits              // the producer sees the cancellation and closes jobs
    | ProducerEnds               // the producer has sent everything and closes jobs
    | WorkerQuits(w: nat)        // at a select, the worker sees the cancellation
    | WorkerEnds(w: nat)         // the worker sees jobs closed
    | WorkerChecks(w: nat)       // the context check after a receive: drop the job and quit, or go on
    | WorkerRuns(w: nat)         // run the channel test, or skip it
    | Deliver(w: nat)            // rendezvous on results: the caller receives worker w's result
    | Reduce                     // the caller adds the result up
    | Report                     // the caller reports its progress unless it sees the cancellation
    | PauseEnds(w: nat)          // the request interval has passed
    | CloserCloses               // every worker is done: results is closed
    | CallerReturns              // results is closed and drained

  predicate AllExited(s: State) {
    forall w :: 0 <= w < |s.workers| ==> s.workers[w].Exited?
  }

  predicate Enabled(c: Config, s: State, a: Step) {
    match a
    case Cancel => !s.cancelled
    case Hand(w) => !s.jobsClosed && s.next < |c.jobs| && w < |s.workers| && s.workers[w].Waiting?
    case ProducerQuits => !s.jobsClosed && s.next < |c.jobs| && s.cancelled
    case ProducerEnds => !s.jobsClosed && s.next == |c.jobs|
    case WorkerQuits(w) => w < |s.workers| && (s.workers[w].Waiting? || s.workers[w].Pausing?) && s.cancelled
    case WorkerEnds(w) => w < |s.workers| && s.workers[w].Waiting? && s.jobsClosed
    case WorkerChecks(w) => w < |s.workers| && s.workers[w].Received?
    case WorkerRuns(w) => w < |s.workers| && s.workers[w].Running?
    case Deliver(w) =>
      w < |s.workers| && s.workers[w].Sending? && s.caller.Ranging? && !s.returned && !s.resultsClosed
    case Reduce => s.caller.Got?
    case Report => s.caller.Added?
    case PauseEnds(w) => w < |s.workers| && s.workers[w].Pausing?
    case CloserCloses => !s.resultsClosed && AllExited(s)
    case CallerReturns => !s.returned && s.resultsClosed && s.caller.Ranging?
  }

  function Apply(c: Config, s: State, a: Step): State
    requires Enabled(c, s, a)
  {
    match a
    case Cancel => s.(cancelled := true)
    case Hand(w) => s.(next := s.next + 1, workers := s.workers[w := Received(s.next)])
    case ProducerQuits => s.(jobsClosed := true)
    case ProducerEnds => s.(jobsClosed := true)
    case WorkerQuits(w) => s.(workers := s.workers[w := Exited])
    case WorkerEnds(w) => s.(workers := s.workers[w := Exited])
    case WorkerChecks(w) =>
      if s.cancelled then s.(workers := s.workers[w := Exited], dropped := s.dropped + {s.workers[w].job})
      else s.(workers := s.workers[w := Running(s.workers[w].job)])
    case WorkerRuns(w) =>
      var i := s.workers[w].job;
      s.(workers := s.workers[w := Sending(i)], ran := if Runnable(c, i) then s.ran + [i] else s.ran)
    case Deliver(w) =>
      s.(workers := s.workers[w := if c.paced then Pausing else Waiting], caller := Got(s.workers[w].job))
    case Reduce =>
      var i := s.caller.job;
      s.(summary := Add(s.summary, ResultOf(c, i)), processed := s.processed + 1, reduced := s.reduced + {i},
         caller := Added)
    case Report => s.(reports := if s.cancelled then s.reports else s.reports + [s.processed], caller := Ranging)
    case PauseEnds(w) => s.(workers := s.workers[w := Waiting])
    case CloserCloses => s.(resultsClosed := true)
    case CallerReturns => s.(returned := true)
  }

  /** The state after a run of steps. */
  ghost function After(c: Config, run: seq<Step>): State
    requires Legal(c, run)
    decreases |run|, 1
  {
    if run == [] then Init(c) else Apply(c, After(c, run[..|run| - 1]), run[|run| - 1])
  }

  ghost predicate Legal(c: Config, run: seq<Step>)
    decreases |run|, 0
  {
    run != [] ==> Legal(c, run[..|run| - 1]) && Enabled(c, After(c, run[..|run| - 1]), run[|run| - 1])
  }

  // ----- what every step keeps -----

  /** Every job is in exactly one place: not yet sent, held by one worker or by the caller, dropped, or reduced. */
  ghost predicate Placed(c: Config, s: State) {
    && s.next <= |c.jobs|
    && s.dropped !! s.reduced
    && (forall i :: i in s.dropped ==> i < s.next)
    && (forall i :: i in s.reduced ==> i < s.next)
    && (forall w :: 0 <= w < |s.workers| && Busy(s.workers[w]) ==>
          s.workers[w].job < s.next && s.workers[w].job !in s.dropped && s.workers[w].job !in s.reduced)
    && (forall v, w :: 0 <= v < w < |s.workers| && Busy(s.workers[v]) && Busy(s.workers[w]) ==>
          s.workers[v].job != s.workers[w].job)
    && (s.caller.Got? ==>
          && s.caller.job < s.next && s.caller.job !in s.dropped && s.caller.job !in s.reduced
          && !Held(s, s.caller.job))
    && (forall i: nat :: i < s.next && i !in s.dropped && i !in s.reduced ==> Held(s, i) || s.caller == Got(i))
  }

  ghost predicate Held(s: State, i: nat) {
    exists w :: 0 <= w < |s.workers| && Busy(s.workers[w]) && s.workers[w].job == i
  }

  ghost predicate Offers(s: State, i: nat) {
    exists w :: 0 <= w < |s.workers| && s.workers[w] == Sending(i)
  }

  /** The result of job `i` is offered, received or reduced. */
  ghost predicate HasResult(s: State, i: nat) {
    Offers(s, i) || s.caller == Got(i) || i in s.reduced
  }

  /** A job has been run exactly when it is runnable and has a result; none twice. */
  ghost predicate RanOnce(c: Config, s: State) {
    && (forall j, k :: 0 <= j < k < |s.ran| ==> s.ran[j] != s.ran[k])
    && (forall i: nat :: i in s.ran <==> Runnable(c, i) && HasResult(s, i))
  }

  /** The sum of the results of the jobs below `n` that are in `done`. */
  ghost function Total(c: Config, n: nat, done: set<nat>): Summary {
    if n == 0 then ZERO
    else
      var rest := Total(c, n - 1, done);
      if n - 1 in done then Add(rest, ResultOf(c, n - 1)) else rest
  }

  function Unreported(s: State): nat {
    if s.caller.Added? then 1 else 0
  }

  /** The caller's totals describe exactly the reduced jobs, and its reports count 0, 1, 2, ... */
  ghost predicate Tallied(c: Config, s: State) {
    && s.summary == Total(c, |c.jobs|, s.reduced)
    && s.processed == |s.reduced|
    && 1 <= |s.reports| && |s.reports| + Unreported(s) <= s.processed + 1
    && (!s.cancelled ==> |s.reports| + Unreported(s) == s.processed + 1)
    && (forall i :: 0 <= i < |s.reports| ==> s.reports[i] == i)
  }

  function CountExited(ws: seq<Worker>): nat {
    if ws == [] then 0 else (if ws[0].Exited? then 1 else 0) + CountExited(ws[1..])
  }

  /** Who has closed or left, and why. */
  ghost predicate Lifecycle(c: Config, s: State) {
    && |s.workers| == WorkerCount(c)
    && (s.resultsClosed ==> AllExited(s))
    && (s.returned ==> s.resultsClosed && s.caller.Ranging?)
    && (!s.cancelled ==> s.dropped == {} && (s.jobsClosed ==> s.next == |c.jobs|))
    && (forall w :: 0 <= w < |s.workers| && s.workers[w].Exited? ==> s.cancelled || s.jobsClosed)
    && |s.dropped| <= CountExited(s.workers)
  }

  ghost predicate Inv(c: Config, s: State) {
    Placed(c, s) && RanOnce(c, s) && Tallied(c, s) && Lifecycle(c, s)
  }

  lemma {:induction false} CountExitedUpdate(ws: seq<Worker>, w: nat, x: Worker)
    requires w < |ws|
    ensures CountExited(ws[w := x])
         == CountExited(ws) - (if ws[w].Exited? then 1 else 0) + (if x.Exited? then 1 else 0)
  {
    if w == 0 {
      assert ws[w := x][1..] == ws[1..];
    } else {
      assert ws[w := x][1..] == ws[1..][w - 1 := x];
      CountExitedUpdate(ws[1..], w - 1, x);
    }
  }

  lemma {:induction false} TotalInsert(c: Config, n: nat, done: set<nat>, i: nat)
    requires i !in done
    ensures Total(c, n, done + {i}) == if i < n then Add(Total(c, n, done), ResultOf(c, i)) else Total(c, n, done)
  {
    if n > 0 {
      TotalInsert(c, n - 1, done, i);
    }
  }

  /** A worker moves on without changing what it holds. */
  lemma PlacedMove(c: Config, s: State, w: nat, x: Worker)
    requires Placed(c, s) && w < |s.workers|
    requires Busy(x) <==> Busy(s.workers[w])
    requires Busy(x) ==> x.job == s.workers[w].job
    ensures Placed(c, s.(workers := s.workers[w := x]))
  {
    var r := s.(workers := s.workers[w := x]);
    forall i: nat
      ensures Held(s, i) <==> Held(r, i)
    {
      if Held(s, i) {
        var v :| 0 <= v < |s.workers| && Busy(s.workers[v]) && s.workers[v].job == i;
        assert Busy(r.workers[v]) && r.workers[v].job == i;
      }
      if Held(r, i) {
        var v :| 0 <= v < |r.workers| && Busy(r.workers[v]) && r.workers[v].job == i;
        assert Busy(s.workers[v]) && s.workers[v].job == i;
      }
    }
  }

  lemma PlacedHand(c: Config, s: State, w: nat)
    requires Placed(c, s) && Enabled(c, s, Hand(w))
    ensures Placed(c, Apply(c, s, Hand(w)))
  {
    var r := Apply(c, s, Hand(w));
    forall i: nat
      ensures Held(s, i) ==> Held(r, i)
      ensures Held(r, i) ==> Held(s, i) || i == s.next
    {
      if Held(s, i) {
        var v :| 0 <= v < |s.workers| && Busy(s.workers[v]) && s.workers[v].job == i;
        assert Busy(r.workers[v]) && r.workers[v].job == i;
      }
      if Held(r, i) {
        var v :| 0 <= v < |r.workers| && Busy(r.workers[v]) && r.workers[v].job == i;
        assert v != w ==> Busy(s.workers[v]) && s.workers[v].job == i;
      }
    }
    assert r.workers[w] == Received(s.next);
  }

  /** A worker lets go of its job, which is dropped or goes to the caller. */
  lemma PlacedRelease(c: Config, s: State, w: nat, x: Worker, dropped: set<nat>, caller: Caller)
    requires Placed(c, s) && w < |s.workers| && Busy(s.workers[w]) && !Busy(x)
    requires var i := s.workers[w].job;
             || (dropped == s.dropped + {i} && caller == s.caller)
             || (dropped == s.dropped && !s.caller.Got? && caller == Got(i))
    ensures Placed(c, s.(workers := s.workers[w := x], dropped := dropped, caller := caller))
  {
    var job, r := s.workers[w].job, s.(workers := s.workers[w := x], dropped := dropped, caller := caller);
    forall i: nat
      ensures Held(r, i) <==> Held(s, i) && i != job
    {
      if Held(s, i) && i != job {
        var v :| 0 <= v < |s.workers| && Busy(s.workers[v]) && s.workers[v].job == i;
        assert Busy(r.workers[v]) && r.workers[v].job == i;
      }
      if Held(r, i) {
        var v :| 0 <= v < |r.workers| && Busy(r.workers[v]) && r.workers[v].job == i;
        assert Busy(s.workers[v]) && s.workers[v].job == i && v != w;
      }
    }
    assert Held(s, job);
  }

  /** The caller is done with the job in its hands. */
  lemma PlacedReduce(c: Config, s: State)
    requires Placed(c, s) && s.caller.Got?
    ensures Placed(c, s.(reduced := s.reduced + {s.caller.job}, caller := Added))
  {
    var r := s.(reduced := s.reduced + {s.caller.job}, caller := Added);
    assert forall i: nat :: Held(s, i) <==> Held(r, i);
    forall w | 0 <= w < |r.workers| && Busy(r.workers[w])
      ensures r.workers[w].job != s.caller.job
    {
      assert Held(s, r.workers[w].job);
    }
  }

  lemma StepPlaced(c: Config, s: State, a: Step)
    requires Placed(c, s) && Enabled(c, s, a)
    ensures Placed(c, Apply(c, s, a))
  {
    WorkersAfter(c, s, a);
    hide Placed;
    var r := Apply(c, s, a);
    if a.Hand? {
      PlacedHand(c, s, a.w);
    } else if a.Deliver? || (a.WorkerChecks? && s.cancelled) {
      PlacedRelease(c, s, a.w, r.workers[a.w], r.dropped, r.caller);
      PlacedDepends(c, s.(workers := r.workers, dropped := r.dropped, caller := r.caller), r);
    } else if a.Reduce? {
      PlacedReduce(c, s);
      PlacedDepends(c, s.(reduced := r.reduced, caller := r.caller), r);
    } else if !OfWorker(a) {
      PlacedDepends(c, s, r);
    } else {
      PlacedMove(c, s, a.w, r.workers[a.w]);
      PlacedDepends(c, s.(workers := r.workers), r);
    }
  }

  /** Placement looks only at the range position, the workers, the two sets and the caller's hands. */
  lemma PlacedDepends(c: Config, s: State, r: State)
    requires Placed(c, s)
    requires r.next == s.next && r.workers == s.workers && r.dropped == s.dropped && r.reduced == s.reduced
    requires r.caller == s.caller || (!r.caller.Got? && !s.caller.Got?)
    ensures Placed(c, r)
  {
    assert forall i: nat :: Held(s, i) <==> Held(r, i);
  }

  lemma StepRanOnce(c: Config, s: State, a: Step)
    requires Placed(c, s) && RanOnce(c, s) && Enabled(c, s, a)
    ensures RanOnce(c, Apply(c, s, a))
  {
    var r := Apply(c, s, a);
    if a.WorkerRuns? {
      RunningHasNoResult(c, s, a.w);
    }
    hide Placed, HasResult;
    forall i: nat
      ensures HasResult(r, i) <==> HasResult(s, i) || (a.WorkerRuns? && s.workers[a.w].job == i)
    {
      ResultStep(c, s, a, i);
    }
  }

  lemma RunningHasNoResult(c: Config, s: State, w: nat)
    requires Placed(c, s) && w < |s.workers| && s.workers[w].Running?
    ensures !HasResult(s, s.workers[w].job)
  {
    assert Held(s, s.workers[w].job);
  }

  /** A step of one particular worker. */
  predicate OfWorker(a: Step) {
    a.Hand? || a.WorkerQuits? || a.WorkerEnds? || a.WorkerChecks? || a.WorkerRuns? || a.Deliver? || a.PauseEnds?
  }

  /** A step moves at most one worker; only running leads to an offer and only delivering away from one. */
  lemma WorkersAfter(c: Config, s: State, a: Step)
    requires Enabled(c, s, a)
    ensures var r := Apply(c, s, a);
      && (!OfWorker(a) ==> r.workers == s.workers)
      && (OfWorker(a) ==>
            && a.w < |s.workers| && |r.workers| == |s.workers| && r.workers == s.workers[a.w := r.workers[a.w]]
            && (s.workers[a.w].Sending? <==> a.Deliver?) && (r.workers[a.w].Sending? <==> a.WorkerRuns?)
            && (a.WorkerRuns? ==> s.workers[a.w].Running? && r.workers[a.w] == Sending(s.workers[a.w].job)))
      && r.reduced == s.reduced + (if a.Reduce? then {s.caller.job} else {})
      && (a.Deliver? ==> !s.caller.Got? && r.caller == Got(s.workers[a.w].job))
      && (a.Reduce? ==> s.caller.Got? && !r.caller.Got?)
      && (!a.Deliver? && !a.Reduce? ==> r.caller == s.caller || (!r.caller.Got? && !s.caller.Got?))
  {
  }

  /** Results appear when a job has been run and never get lost. */
  lemma ResultStep(c: Config, s: State, a: Step, i: nat)
    requires Enabled(c, s, a)
    ensures HasResult(Apply(c, s, a), i) <==> HasResult(s, i) || (a.WorkerRuns? && s.workers[a.w].job == i)
  {
    WorkersAfter(c, s, a);
    var r := Apply(c, s, a);
    hide Apply, Enabled;
    if Offers(s, i) {
      var w :| 0 <= w < |s.workers| && s.workers[w] == Sending(i);
      assert r.workers[w] == Sending(i) || r.caller == Got(i);
    }
    if Offers(r, i) {
      var w :| 0 <= w < |r.workers| && r.workers[w] == Sending(i);
      assert s.workers[w] == Sending(i) || (a.WorkerRuns? && a.w == w);
    }
    if a.WorkerRuns? {
      assert r.workers[a.w] == Sending(s.workers[a.w].job);
    }
    if a.Deliver? {
      assert s.workers[a.w] == Sending(s.workers[a.w].job);
    }
  }

  lemma StepTallied(c: Config, s: State, a: Step)
    requires Placed(c, s) && Tallied(c, s) && Enabled(c, s, a)
    ensures Tallied(c, Apply(c, s, a))
  {
    hide Total, Held;
    if a.Reduce? {
      var i := s.caller.job;
      assert i < |c.jobs| && i !in s.reduced;
      hide Placed;
      TotalInsert(c, |c.jobs|, s.reduced, i);
    }
  }

  lemma StepLifecycle(c: Config, s: State, a: Step)
    requires Placed(c, s) && Lifecycle(c, s) && Enabled(c, s, a)
    ensures Lifecycle(c, Apply(c, s, a))
  {
    hide CountExited, Held;
    if OfWorker(a) {
      CountExitedUpdate(s.workers, a.w, Apply(c, s, a).workers[a.w]);
    }
  }

  lemma InitInv(c: Config)
    ensures Inv(c, Init(c))
  {
    TotalNone(c, |c.jobs|);
    var s := Init(c);
    assert forall w :: 0 <= w < |s.workers| ==> s.workers[w].Waiting?;
    assert Placed(c, s);
    assert RanOnce(c, s) by {
      assert forall i: nat :: !HasResult(s, i);
    }
    assert Tallied(c, s);
  }

  lemma {:induction false} TotalNone(c: Config, n: nat)
    ensures Total(c, n, {}) == ZERO
  {
    if n > 0 {
      TotalNone(c, n - 1);
    }
  }

  /** Conservation over every run: each listed channel is in exactly one place, is run at most once,
      and the caller's totals are those of the reduced channels. */
  lemma {:induction false} RunInv(c: Config, run: seq<Step>)
    requires Legal(c, run)
    ensures Inv(c, After(c, run))
  {
    if run == [] {
      InitInv(c);
    } else {
      var n := |run| - 1;
      RunInv(c, run[..n]);
      var s, a := After(c, run[..n]), run[n];
      StepPlaced(c, s, a);
      StepRanOnce(c, s, a);
      StepTallied(c, s, a);
      StepLifecycle(c, s, a);
    }
  }

  /** No worker ever offers a result on the closed results channel. */
  lemma NoSendOnClosed(c: Config, run: seq<Step>, w: nat)
    requires Legal(c, run) && w < |After(c, run).workers| && After(c, run).resultsClosed
    ensures After(c, run).workers[w].Exited?
  {
    RunInv(c, run);
  }

  // ----- no deadlock, and every run ends -----

  /** Caller, closer, producer and every worker are gone: nothing is left running. */
  ghost predicate Finished(s: State) {
    s.returned && s.resultsClosed && s.jobsClosed && AllExited(s)
  }

  /** A goroutine's own step, as opposed to a cancellation from outside. */
  ghost predicate CanStep(c: Config, s: State) {
    exists a :: a != Cancel && Enabled(c, s, a)
  }

  /** In every reachable state, cancelled or not, either everything has finished or some goroutine can step. */
  lemma NoDeadlock(c: Config, run: seq<Step>)
    requires ValidConfig(c) && Legal(c, run)
    ensures Finished(After(c, run)) <==> !CanStep(c, After(c, run))
  {
    RunInv(c, run);
    var s := After(c, run);
    if !Finished(s) {
      if !s.caller.Ranging? {
        assert Enabled(c, s, if s.caller.Got? then Reduce else Report);
      } else if w :| 0 <= w < |s.workers| && !s.workers[w].Exited? {
        var x := s.workers[w];
        var a :=
          if x.Received? then WorkerChecks(w)
          else if x.Running? then WorkerRuns(w)
          else if x.Sending? then Deliver(w)
          else if x.Pausing? then PauseEnds(w)
          else if s.cancelled then WorkerQuits(w)
          else if s.jobsClosed then WorkerEnds(w)
          else if s.next < |c.jobs| then Hand(w)
          else ProducerEnds;
        assert Enabled(c, s, a);
      } else if !s.resultsClosed {
        assert Enabled(c, s, CloserCloses);
      } else if !s.returned {
        assert Enabled(c, s, CallerReturns);
      } else {
        assert |s.workers| > 0 ==> s.workers[0].Exited?;
        assert Enabled(c, s, ProducerQuits) || Enabled(c, s, ProducerEnds);
      }
    }
  }

  function Weight(w: Worker): nat {
    match w
    case Received(_) => 7
    case Running(_) => 6
    case Sending(_) => 5
    case Pausing => 2
    case Waiting => 1
    case Exited => 0
  }

  function Weights(ws: seq<Worker>): nat {
    if ws == [] then 0 else Weight(ws[0]) + Weights(ws[1..])
  }

  lemma {:induction false} WeightsUpdate(ws: seq<Worker>, w: nat, x: Worker)
    requires w < |ws|
    ensures Weights(ws[w := x]) == Weights(ws) - Weight(ws[w]) + Weight(x)
  {
    if w == 0 {
      assert ws[w := x][1..] == ws[1..];
    } else {
      assert ws[w := x][1..] == ws[1..][w - 1 := x];
      WeightsUpdate(ws[1..], w - 1, x);
    }
  }

  lemma {:induction false} WeightsInit(n: nat)
    ensures Weights(seq(n, _ => Waiting)) == n
  {
    if n > 0 {
      assert seq(n, _ => Waiting)[1..] == seq(n - 1, _ => Waiting);
      WeightsInit(n - 1);
    }
  }

  /** What is left to do. */
  function Measure(c: Config, s: State): int {
    7 * (|c.jobs| - s.next) + Weights(s.workers) + (if s.caller.Got? then 2 else if s.caller.Added? then 1 else 0)
    + (if s.cancelled then 0 else 1) + (if s.jobsClosed then 0 else 1)
    + (if s.resultsClosed then 0 else 1) + (if s.returned then 0 else 1)
  }

  lemma StepDecreases(c: Config, s: State, a: Step)
    requires Enabled(c, s, a)
    ensures Measure(c, Apply(c, s, a)) < Measure(c, s)
  {
    hide Weights;
    if OfWorker(a) {
      WeightsUpdate(s.workers, a.w, Apply(c, s, a).workers[a.w]);
    }
  }

  /** Every step uses up some of the measure, so no run is longer than the initial measure. */
  lemma {:induction false} RunsAreBounded(c: Config, run: seq<Step>)
    requires Legal(c, run)
    ensures |run| + Measure(c, After(c, run)) <= 7 * |c.jobs| + WorkerCount(c) + 4
    ensures |run| <= 7 * |c.jobs| + WorkerCount(c) + 4
  {
    if run == [] {
      WeightsInit(WorkerCount(c));
    } else {
      var n := |run| - 1;
      hide Measure, Apply, Enabled;
      RunsAreBounded(c, run[..n]);
      StepDecreases(c, After(c, run[..n]), run[n]);
    }
    MeasureNonNegative(c, run);
  }

  lemma MeasureNonNegative(c: Config, run: seq<Step>)
    requires Legal(c, run)
    ensures Measure(c, After(c, run)) >= 0
  {
    hide After, Legal, Weights;
    RunInv(c, run);
  }

  // ----- what a finished pool has done -----

  /** The sum of `run` over every channel that is neither nil nor manually disabled. */
  function SumOfRuns(c: Config, n: nat): Summary
    requires ValidConfig(c) && n <= |c.jobs|
  {
    if n == 0 then ZERO
    else
      var rest := SumOfRuns(c, n - 1);
      if c.jobs[n - 1].Channel? && !c.jobs[n - 1].manuallyDisabled then Add(rest, c.outcome[n - 1]) else rest
  }

  /** The sum of one count over the eligible channels. */
  function CountOf(c: Config, n: nat, count: Summary -> int): int
    requires ValidConfig(c) && n <= |c.jobs|
  {
    if n == 0 then 0
    else
      CountOf(c, n - 1, count)
      + if c.jobs[n - 1].Channel? && !c.jobs[n - 1].manuallyDisabled then count(c.outcome[n - 1]) else 0
  }

  /** Each count of the summary is the sum of that count. */
  lemma {:induction false} SummaryCounts(c: Config, n: nat)
    requires ValidConfig(c) && n <= |c.jobs|
    ensures var x := SumOfRuns(c, n);
      && x.tested == CountOf(c, n, (s: Summary) => s.tested)
      && x.succeeded == CountOf(c, n, (s: Summary) => s.succeeded)
      && x.failed == CountOf(c, n, (s: Summary) => s.failed)
      && x.disabled == CountOf(c, n, (s: Summary) => s.disabled)
      && x.enabled == CountOf(c, n, (s: Summary) => s.enabled)
  {
    if n > 0 {
      SummaryCounts(c, n - 1);
    }
  }

  lemma {:induction false} TotalOfAll(c: Config, n: nat, done: set<nat>)
    requires ValidConfig(c) && n <= |c.jobs| && forall i: nat :: i < n ==> i in done
    ensures Total(c, n, done) == SumOfRuns(c, n)
  {
    if n > 0 {
      TotalOfAll(c, n - 1, done);
    }
  }

  lemma {:induction false} InitialSegment(n: nat, s: set<nat>)
    requires forall i: nat :: i in s <==> i < n
    ensures |s| == n
  {
    if n == 0 {
      assert s == {};
    } else {
      InitialSegment(n - 1, s - {n - 1});
    }
  }

  /** Without cancellation the pool ends with every channel processed and reported, every eligible
      channel run exactly once, and the summary of all of them. */
  lemma CompleteWithoutCancel(c: Config, run: seq<Step>)
    requires ValidConfig(c) && Legal(c, run)
    requires Finished(After(c, run)) && !After(c, run).cancelled
    ensures var s := After(c, run);
            && s.processed == |c.jobs|
            && s.summary == SumOfRuns(c, |c.jobs|)
            && |s.reports| == |c.jobs| + 1 && (forall i :: 0 <= i <= |c.jobs| ==> s.reports[i] == i)
            && multiset(s.ran) == multiset(set i: nat | i < |c.jobs| && Runnable(c, i))
  {
    RunInv(c, run);
    var s := After(c, run);
    InitialSegment(|c.jobs|, s.reduced);
    TotalOfAll(c, |c.jobs|, s.reduced);
    DistinctMultiset(s.ran, set i: nat | i < |c.jobs| && Runnable(c, i));
  }

  lemma {:induction false} DistinctMultiset(q: seq<nat>, s: set<nat>)
    requires forall j, k :: 0 <= j < k < |q| ==> q[j] != q[k]
    requires forall i: nat :: i in q <==> i in s
    ensures multiset(q) == multiset(s)
  {
    if q == [] {
      assert s == {};
    } else {
      var n := |q| - 1;
      assert q == q[..n] + [q[n]];
      DistinctMultiset(q[..n], s - {q[n]});
      assert multiset(s) == multiset(s - {q[n]}) + multiset{q[n]};
    }
  }

  /** With cancellation every job that was handed out is accounted for, and each worker drops at most one. */
  lemma AccountedOnCancel(c: Config, run: seq<Step>)
    requires ValidConfig(c) && Legal(c, run) && Finished(After(c, run))
    ensures var s := After(c, run);
            && s.processed + |s.dropped| == s.next
            && |s.dropped| <= WorkerCount(c)
            && s.summary == Total(c, |c.jobs|, s.reduced)
            && (forall i: nat :: i in s.ran <==> Runnable(c, i) && i in s.reduced)
  {
    RunInv(c, run);
    var s := After(c, run);
    InitialSegment(s.next, s.dropped + s.reduced);
    CountExitedBound(s.workers);
    assert forall i: nat :: !Offers(s, i);
  }

  lemma {:induction false} CountExitedBound(ws: seq<Worker>)
    ensures CountExited(ws) <= |ws|
  {
    if ws != [] {
      CountExitedBound(ws[1..]);
    }
  }

  // ----- the counts of one health check, and of a cycle -----

  /** Each tested channel succeeded or failed, and changed its status at most once. */
  predicate Balanced(x: Summary) {
    x.tested == x.succeeded + x.failed && 0 <= x.succeeded && 0 <= x.failed
    && 0 <= x.disabled && 0 <= x.enabled && x.disabled + x.enabled <= x.tested
  }

  /** The counting part of one health check. The verdicts of the services it consults are
      parameters; `shouldEnable` is asked with the error the check ends up with. */
  method HealthCheck(cancelled: bool, apiError: bool, shouldBan: bool, autoDisable: bool, slow: bool,
                     allowDisable: bool, channelEnabled: bool, autoBan: bool, localError: bool,
                     shouldEnable: bool -> bool)
    returns (summary: Summary)
    ensures Balanced(summary) && summary.tested <= 1
    ensures summary.tested == 1 <==> !cancelled
    ensures summary.succeeded == 1 <==> !cancelled && !apiError && !(autoDisable && slow)
    ensures summary.disabled == 1 <==>
      !cancelled && allowDisable && channelEnabled && autoBan && ((apiError && shouldBan) || (autoDisable && slow))
    ensures summary.enabled == 1 <==>
      !cancelled && !localError && !channelEnabled && shouldEnable(apiError || (autoDisable && slow))
  {
    summary := ZERO;
    if cancelled {
      return;
    }
    summary := summary.(tested := summary.tested + 1);
    var failed := apiError;
    var ban := apiError && shouldBan;
    if autoDisable && !ban && slow {
      failed := true;
      ban := true;
    }
    if !failed {
      summary := summary.(succeeded := summary.succeeded + 1);
    } else {
      summary := summary.(failed := summary.failed + 1);
    }
    if allowDisable && channelEnabled && ban && autoBan {
      summary := summary.(disabled := summary.disabled + 1);
    }
    if !localError && !channelEnabled && shouldEnable(failed) {
      summary := summary.(enabled := summary.enabled + 1);
    }
  }

  lemma {:induction false} TotalBalanced(c: Config, n: nat, done: set<nat>)
    requires forall i :: 0 <= i < |c.outcome| ==> Balanced(c.outcome[i])
    ensures Balanced(Total(c, n, done))
  {
    if n > 0 {
      TotalBalanced(c, n - 1, done);
    }
  }

  /** In every reachable state the running totals balance, whatever was dropped or is in flight. */
  lemma CycleBalanced(c: Config, run: seq<Step>)
    requires Legal(c, run) && forall i :: 0 <= i < |c.outcome| ==> Balanced(c.outcome[i])
    ensures Balanced(After(c, run).summary)
  {
    RunInv(c, run);
    TotalBalanced(c, |c.jobs|, After(c, run).reduced);
  }
}
