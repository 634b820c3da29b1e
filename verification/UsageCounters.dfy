/** The usage counters of common/disk_cache_config.go under concurrency: every atomic add and store of every
    storage is a step of its own, and the steps of different storages interleave in any order. */
module UsageCounters {
  import opened BodyStream

  datatype Counters = Counters(diskFiles: int, diskBytes: int, memoryBuffers: int, memoryBytes: int)

  const ZERO := Counters(0, 0, 0, 0)

  function Floor0(n: int): int {
    if n < 0 then 0 else n
  }

  /** `IncrementDiskFiles` and `IncrementMemoryBuffers`, run without interruption. */
  function Increment(c: Counters, kind: Kind, size: nat): Counters {
    match kind
    case Disk => c.(diskFiles := c.diskFiles + 1, diskBytes := c.diskBytes + size)
    case Memory => c.(memoryBuffers := c.memoryBuffers + 1, memoryBytes := c.memoryBytes + size)
  }

  /** `DecrementDiskFiles` and `DecrementMemoryBuffers`, run without interruption; only the former clamp. */
  function Decrement(c: Counters, kind: Kind, size: nat): Counters {
    match kind
    case Disk => c.(diskFiles := Floor0(c.diskFiles - 1), diskBytes := Floor0(c.diskBytes - size))
    case Memory => c.(memoryBuffers := c.memoryBuffers - 1, memoryBytes := c.memoryBytes - size)
  }

  // ----- single atomic steps -----

  /** How far a storage has got: made, counted, its bytes added, its close begun (the compare-and-swap),
      uncounted, its bytes taken off. A stage that is `below` has seen a negative count and is about to
      store 0 over it. */
  datatype Stage =
    | Made | Counted | Open | Closing | Uncounted(below: bool) | FilesSettled | BytesOff(below: bool) | Closed

  datatype Stored = Stored(kind: Kind, size: nat, stage: Stage)

  datatype Usage = Usage(counters: Counters, storages: seq<Stored>)

  /** `Next(id)` is the next atomic operation on behalf of storage `id`: of its creation, of a caller that
      closes it, or of a close under way. On a closed storage that is one more close, without effect. */
  datatype Event = Create(kind: Kind, size: nat) | CreateFailed | Next(id: nat)

  function AddCount(c: Counters, kind: Kind, n: int): Counters {
    match kind
    case Disk => c.(diskFiles := c.diskFiles + n)
    case Memory => c.(memoryBuffers := c.memoryBuffers + n)
  }

  function AddBytes(c: Counters, kind: Kind, n: int): Counters {
    match kind
    case Disk => c.(diskBytes := c.diskBytes + n)
    case Memory => c.(memoryBytes := c.memoryBytes + n)
  }

  function NextStep(c: Counters, x: Stored): (Counters, Stage) {
    match x.stage
    case Made => (AddCount(c, x.kind, 1), Counted)
    case Counted => (AddBytes(c, x.kind, x.size), Open)
    case Open => (c, Closing)
    case Closing =>
      var d := AddCount(c, x.kind, -1);
      (d, Uncounted(x.kind.Disk? && d.diskFiles < 0))
    case Uncounted(below) => (if below then c.(diskFiles := 0) else c, FilesSettled)
    case FilesSettled =>
      var d := AddBytes(c, x.kind, 0 - x.size);
      (d, BytesOff(x.kind.Disk? && d.diskBytes < 0))
    case BytesOff(below) => (if below then c.(diskBytes := 0) else c, Closed)
    case Closed => (c, Closed)
  }

  function Handle(u: Usage, e: Event): Usage {
    match e
    case Create(kind, size) => u.(storages := u.storages + [Stored(kind, size, Made)])
    case CreateFailed => u
    case Next(id) =>
      if id < |u.storages| then
        var (c, stage) := NextStep(u.counters, u.storages[id]);
        Usage(c, u.storages[id := u.storages[id].(stage := stage)])
      else u
  }

  /** The state after a run of atomic steps. */
  function Run(es: seq<Event>): Usage {
    if es == [] then Usage(ZERO, []) else Handle(Run(es[..|es| - 1]), es[|es| - 1])
  }

  // ----- what the counters are worth at any moment -----

  function Sum(s: seq<Stored>, weigh: Stored -> nat): nat {
    if s == [] then 0 else weigh(s[0]) + Sum(s[1..], weigh)
  }

  function CountOf(kind: Kind): Stored -> nat {
    (x: Stored) => if x.kind == kind && (x.stage.Counted? || x.stage.Open? || x.stage.Closing?) then 1 else 0
  }

  function BytesOf(kind: Kind): Stored -> nat {
    (x: Stored) =>
      if x.kind == kind && (x.stage.Open? || x.stage.Closing? || x.stage.Uncounted? || x.stage.FilesSettled?)
      then x.size else 0
  }

  lemma {:induction false} SumAppend(s: seq<Stored>, x: Stored, weigh: Stored -> nat)
    ensures Sum(s + [x], weigh) == Sum(s, weigh) + weigh(x)
  {
    if s == [] {
      assert s + [x] == [x];
    } else {
      assert (s + [x])[1..] == s[1..] + [x];
      SumAppend(s[1..], x, weigh);
    }
  }

  lemma {:induction false} SumUpdate(s: seq<Stored>, i: nat, x: Stored, weigh: Stored -> nat)
    requires i < |s|
    ensures Sum(s[i := x], weigh) == Sum(s, weigh) - weigh(s[i]) + weigh(x)
    ensures Sum(s, weigh) >= weigh(s[i])
  {
    if i == 0 {
      assert s[i := x][1..] == s[1..];
    } else {
      assert s[i := x][1..] == s[1..][i - 1 := x];
      SumUpdate(s[1..], i - 1, x, weigh);
    }
  }

  /** Each counter is the sum of what the storages have added and not yet taken off. */
  ghost predicate Balanced(u: Usage) {
    && u.counters.diskFiles == Sum(u.storages, CountOf(Disk))
    && u.counters.diskBytes == Sum(u.storages, BytesOf(Disk))
    && u.counters.memoryBuffers == Sum(u.storages, CountOf(Memory))
    && u.counters.memoryBytes == Sum(u.storages, BytesOf(Memory))
  }

  /** Nobody is about to store 0 over a counter. */
  ghost predicate NoClamp(u: Usage) {
    forall i :: 0 <= i < |u.storages| ==>
      u.storages[i].stage != Uncounted(true) && u.storages[i].stage != BytesOff(true)
  }

  /** One step moves each counter by what it moves the storage's own share. */
  lemma StepShare(c: Counters, x: Stored)
    requires c.diskFiles >= CountOf(Disk)(x) && c.diskBytes >= BytesOf(Disk)(x)
    requires x.stage != Uncounted(true) && x.stage != BytesOff(true)
    ensures var (d, stage) := NextStep(c, x);
      var y := x.(stage := stage);
      && stage != Uncounted(true) && stage != BytesOff(true)
      && d.diskFiles == c.diskFiles - CountOf(Disk)(x) + CountOf(Disk)(y)
      && d.diskBytes == c.diskBytes - BytesOf(Disk)(x) + BytesOf(Disk)(y)
      && d.memoryBuffers == c.memoryBuffers - CountOf(Memory)(x) + CountOf(Memory)(y)
      && d.memoryBytes == c.memoryBytes - BytesOf(Memory)(x) + BytesOf(Memory)(y)
  {
  }

  lemma HandleBalanced(u: Usage, e: Event)
    requires Balanced(u) && NoClamp(u)
    ensures Balanced(Handle(u, e)) && NoClamp(Handle(u, e))
  {
    hide Sum, NextStep;
    if e.Create? {
      var x := Stored(e.kind, e.size, Made);
      SumAppend(u.storages, x, CountOf(Disk));
      SumAppend(u.storages, x, CountOf(Memory));
      SumAppend(u.storages, x, BytesOf(Disk));
      SumAppend(u.storages, x, BytesOf(Memory));
    } else if e.Next? && e.id < |u.storages| {
      hide CountOf, BytesOf;
      var x := Handle(u, e).storages[e.id];
      SumUpdate(u.storages, e.id, x, CountOf(Disk));
      SumUpdate(u.storages, e.id, x, CountOf(Memory));
      SumUpdate(u.storages, e.id, x, BytesOf(Disk));
      SumUpdate(u.storages, e.id, x, BytesOf(Memory));
      StepShare(u.counters, u.storages[e.id]);
    }
  }

  /** In every interleaving of creations, failed creations and repeated closes the counters are exactly
      what has been added and not taken off, so no counter is ever negative and no clamp is ever due. */
  lemma {:induction false} RunBalanced(es: seq<Event>)
    ensures Balanced(Run(es)) && NoClamp(Run(es))
  {
    if es != [] {
      RunBalanced(es[..|es| - 1]);
      HandleBalanced(Run(es[..|es| - 1]), es[|es| - 1]);
    }
  }

  // ----- when nothing is under way -----

  predicate Settled(u: Usage) {
    forall i :: 0 <= i < |u.storages| ==> u.storages[i].stage.Open? || u.storages[i].stage.Closed?
  }

  /** The number of open storages of a kind, and their summed size. */
  function OpenCount(s: seq<Stored>, kind: Kind): nat {
    if s == [] then 0 else (if s[0].kind == kind && s[0].stage.Open? then 1 else 0) + OpenCount(s[1..], kind)
  }

  function OpenBytes(s: seq<Stored>, kind: Kind): nat {
    if s == [] then 0 else (if s[0].kind == kind && s[0].stage.Open? then s[0].size else 0) + OpenBytes(s[1..], kind)
  }

  lemma {:induction false} SettledSums(s: seq<Stored>, kind: Kind)
    requires forall i :: 0 <= i < |s| ==> s[i].stage.Open? || s[i].stage.Closed?
    ensures Sum(s, CountOf(kind)) == OpenCount(s, kind) && Sum(s, BytesOf(kind)) == OpenBytes(s, kind)
  {
    if s != [] {
      SettledSums(s[1..], kind);
    }
  }

  /** Whenever no creation or close is under way, the counters are the number and the summed size of the open
      storages of each kind, whatever interleaving led there. */
  lemma CountersExact(es: seq<Event>)
    requires Settled(Run(es))
    ensures var u := Run(es);
      && u.counters.diskFiles == OpenCount(u.storages, Disk)
      && u.counters.diskBytes == OpenBytes(u.storages, Disk)
      && u.counters.memoryBuffers == OpenCount(u.storages, Memory)
      && u.counters.memoryBytes == OpenBytes(u.storages, Memory)
  {
    RunBalanced(es);
    SettledSums(Run(es).storages, Disk);
    SettledSums(Run(es).storages, Memory);
  }

  /** Storage `id`'s next `n` steps with nothing in between. */
  function Steps(u: Usage, id: nat, n: nat): Usage {
    if n == 0 then u else Handle(Steps(u, id, n - 1), Next(id))
  }

  lemma OneStep(u: Usage, id: nat, n: nat, c: Counters, x: Stored)
    requires id < |u.storages| && Steps(u, id, n) == Usage(c, u.storages[id := x])
    ensures Steps(u, id, n + 1) == Usage(NextStep(c, x).0, u.storages[id := x.(stage := NextStep(c, x).1)])
  {
    var y := x.(stage := NextStep(c, x).1);
    assert u.storages[id := x][id := y] == u.storages[id := y];
  }

  /** Uninterrupted, the two steps of a creation are one increment. */
  lemma CreateUninterrupted(u: Usage, id: nat)
    requires id < |u.storages| && u.storages[id].stage.Made?
    ensures var x := u.storages[id];
      Steps(u, id, 2) == Usage(Increment(u.counters, x.kind, x.size), u.storages[id := x.(stage := Open)])
  {
    var c0, x0 := u.counters, u.storages[id];
    assert Steps(u, id, 0) == Usage(c0, u.storages[id := x0]);
    OneStep(u, id, 0, c0, x0);
    OneStep(u, id, 1, NextStep(c0, x0).0, x0.(stage := Counted));
  }

  /** Uninterrupted, the five steps of a close are one decrement. */
  lemma CloseUninterrupted(u: Usage, id: nat)
    requires id < |u.storages| && u.storages[id].stage.Open?
    ensures var x := u.storages[id];
      Steps(u, id, 5) == Usage(Decrement(u.counters, x.kind, x.size), u.storages[id := x.(stage := Closed)])
  {
    var c0, x0 := u.counters, u.storages[id];
    assert Steps(u, id, 0) == Usage(c0, u.storages[id := x0]);
    OneStep(u, id, 0, c0, x0);
    var (c1, s1) := NextStep(c0, x0);
    OneStep(u, id, 1, c1, x0.(stage := s1));
    var (c2, s2) := NextStep(c1, x0.(stage := s1));
    OneStep(u, id, 2, c2, x0.(stage := s2));
    var (c3, s3) := NextStep(c2, x0.(stage := s2));
    OneStep(u, id, 3, c3, x0.(stage := s3));
    var (c4, s4) := NextStep(c3, x0.(stage := s3));
    OneStep(u, id, 4, c4, x0.(stage := s4));
  }
}
