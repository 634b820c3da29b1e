/** The periodic check of controller/channel_upstream_update.go: when it is skipped, what it leaves on the channel and
    what it reports. */
module UpstreamChecks {
  import opened Text
  import opened OrderedSets
  import opened Upstream

  datatype Checked = Skipped | FetchFailed | Done(changed: bool, autoAdded: int)

  /** One call: what upstream offers, whether it is forced, the fetch succeeds and additions are adopted, and when. */
  datatype Check = Check(w: World, force: bool, fetched: bool, autoSync: bool, now: int)

  predicate TooSoon(c: Channel, minInterval: int, now: int) {
    c.lastCheck > 0 && now - c.lastCheck < minInterval
  }

  ghost function Outcome(c: Channel, k: Check, minInterval: int): Checked {
    if !k.force && TooSoon(c, minInterval, k.now) then Skipped
    else if !k.fetched then FetchFailed
    else
      var adopted := if k.autoSync then |PendingAdd(k.w, GetModels(c.models), c.ignored)| else 0;
      Done(adopted > 0, adopted)
  }

  ghost function AfterCheck(c: Channel, k: Check, minInterval: int): Channel {
    match Outcome(c, k, minInterval)
    case Skipped => c
    case FetchFailed => c.(lastCheck := k.now)
    case Done(_, _) =>
      if k.autoSync then AutoSync(c, k.w, k.now)
      else c.(detected := PendingAdd(k.w, GetModels(c.models), c.ignored),
              removed := PendingRemove(k.w, GetModels(c.models)), lastCheck := k.now)
  }

  // ----- the minimum interval -----

  /** The times of the checks of a run that were not skipped. */
  ghost function Performed(c: Channel, ks: seq<Check>, minInterval: int): seq<int>
    decreases |ks|
  {
    if ks == [] then []
    else
      (if Outcome(c, ks[0], minInterval).Skipped? then [] else [ks[0].now])
      + Performed(AfterCheck(c, ks[0], minInterval), ks[1..], minInterval)
  }

  lemma AfterPerformed(c: Channel, k: Check, minInterval: int)
    ensures Outcome(c, k, minInterval).Skipped? ==> AfterCheck(c, k, minInterval) == c
    ensures !Outcome(c, k, minInterval).Skipped? ==> AfterCheck(c, k, minInterval).lastCheck == k.now
  {
  }

  /** Unforced checks, failed fetches included, are at least the minimum interval apart, whatever calls are made. */
  lemma {:induction false} ChecksSpaced(c: Channel, ks: seq<Check>, minInterval: int)
    requires forall i :: 0 <= i < |ks| ==> !ks[i].force && ks[i].now > 0
    ensures var ts := Performed(c, ks, minInterval);
      && (c.lastCheck > 0 && ts != [] ==> ts[0] - c.lastCheck >= minInterval)
      && (forall i :: 0 <= i < |ts| - 1 ==> ts[i + 1] - ts[i] >= minInterval)
    decreases |ks|
  {
    if ks != [] {
      AfterPerformed(c, ks[0], minInterval);
      var d := AfterCheck(c, ks[0], minInterval);
      ChecksSpaced(d, ks[1..], minInterval);
      hide AfterCheck, PendingAdd;
      var rest := Performed(d, ks[1..], minInterval);
      if !Outcome(c, ks[0], minInterval).Skipped? {
        assert Performed(c, ks, minInterval) == [ks[0].now] + rest;
      } else {
        assert Performed(c, ks, minInterval) == rest;
      }
    }
  }

  /** And none is skipped without need: a channel never checked is, a forced check is always made, and any other is
      skipped only within the interval after the latest one. */
  lemma SkippedExactly(c: Channel, first: Check, second: Check, minInterval: int)
    ensures c.lastCheck <= 0 || second.force ==> !Outcome(c, second, minInterval).Skipped?
    ensures !Outcome(c, first, minInterval).Skipped? && first.now > 0 && !second.force ==>
      (Outcome(AfterCheck(c, first, minInterval), second, minInterval).Skipped?
       <==> second.now < first.now + minInterval)
  {
    hide PendingAdd;
    AfterPerformed(c, first, minInterval);
  }

  // ----- what it reports -----

  /** A check reports a change exactly when it adopts a name, and the number of names is by how much the list of local
      models has grown when it is read back, if none of them has a comma. */
  lemma ReportExact(c: Channel, k: Check, minInterval: int)
    ensures var o, d := Outcome(c, k, minInterval), AfterCheck(c, k, minInterval);
      && (o.Done? ==> (o.changed <==> o.autoAdded > 0) && (o.changed ==> k.autoSync))
      && (o.Done? && CommaFree(PendingAdd(k.w, GetModels(c.models), c.ignored)) ==>
            |Local(d)| == |Local(c)| + o.autoAdded)
      && (!o.Done? ==> d == c.(lastCheck := d.lastCheck))
  {
    var o := Outcome(c, k, minInterval);
    if o.Done? && k.autoSync && CommaFree(PendingAdd(k.w, GetModels(c.models), c.ignored)) {
      hide PendingAdd, GetModels, Normalize;
      SyncedGrowth(c, k.w, k.now);
    }
  }

  lemma SyncedGrowth(c: Channel, w: World, now: int)
    requires CommaFree(PendingAdd(w, GetModels(c.models), c.ignored))
    ensures |Local(AutoSync(c, w, now))| == |Local(c)| + |PendingAdd(w, GetModels(c.models), c.ignored)|
  {
    hide Normalize, PendingAdd, PendingRemove, GetModels, Join, Merge, Subsequence;
    var add, local := PendingAdd(w, GetModels(c.models), c.ignored), Local(c);
    AdoptedCount(w, GetModels(c.models), c.ignored);
    PendingAddSpec(w, GetModels(c.models), c.ignored);
    NormalizeSpec(GetModels(c.models));
    NormalizeFixed(local);
    NormalizeFixed(add);
    MergeSpec(local, add);
    LocalCommaFree(c.models);
    LocalOfJoin(Merge(local, add));
  }
}
