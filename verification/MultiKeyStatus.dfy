/** What the management actions of controller/channel.go do to the channel as a whole: its status, its reason and
    time, and what they reply. */
module MultiKeyStatus {
  import opened MultiKey

  ghost predicate SomeKeyEnabled(c: Channel) {
    exists i :: 0 <= i < |c.keys| && StatusOf(c, i) == ENABLED
  }

  predicate DisabledForKeys(c: Channel) {
    c.status == MANUALLY_DISABLED && c.reason == ALL_KEYS_DISABLED
  }

  predicate SameStatus(c: Channel, d: Channel) {
    d.status == c.status && d.reason == c.reason && d.statusTime == c.statusTime
  }

  predicate Enables(a: Action) {
    a.EnableKey? || a.EnableAll?
  }

  /** An enabled channel stays as it is while it has an enabled key, and is else disabled for want of keys, now; a
      channel disabled for want of keys is enabled, now, exactly by an enabling action that leaves an enabled key; no
      action touches the status of any other channel. */
  ghost predicate StatusLaw(c: Channel, a: Action, d: Channel, now: int) {
    if c.status == ENABLED then
      if SomeKeyEnabled(d) then SameStatus(c, d)
      else d.status == MANUALLY_DISABLED && d.reason == ALL_KEYS_DISABLED && d.statusTime == now
    else if DisabledForKeys(c) && Enables(a) && SomeKeyEnabled(d) then
      d.status == ENABLED && d.reason == "" && d.statusTime == now
    else SameStatus(c, d)
  }

  /** `x` is `c` with other keys and key entries. */
  predicate SameChannel(c: Channel, x: Channel) {
    SameStatus(c, x) && x.isMultiKey == c.isMultiKey
  }

  lemma SameKeys(x: Channel, d: Channel)
    requires d.keys == x.keys && d.statusList == x.statusList
    ensures SomeKeyEnabled(d) <==> SomeKeyEnabled(x)
  {
    assert forall i :: StatusOf(d, i) == StatusOf(x, i);
  }

  lemma AfterDisable(c: Channel, a: Action, x: Channel, now: int)
    requires c.isMultiKey && SameChannel(c, x) && !Enables(a)
    ensures StatusLaw(c, a, DisableIfUnavailable(x, now), now)
  {
    var d := DisableIfUnavailable(x, now);
    SameKeys(x, d);
    assert HasEnabledKey(x) <==> SomeKeyEnabled(x);
  }

  lemma AfterRestore(c: Channel, a: Action, x: Channel, now: int)
    requires c.isMultiKey && SameChannel(c, x) && Enables(a) && (c.status == ENABLED ==> SomeKeyEnabled(x))
    ensures StatusLaw(c, a, RestoreIfAvailable(x, now), now)
  {
    var d := RestoreIfAvailable(x, now);
    SameKeys(x, d);
    assert HasEnabledKey(x) <==> SomeKeyEnabled(x);
  }

  lemma Untouched(c: Channel, a: Action, now: int)
    requires WellFormed(c) && !Enables(a)
    ensures StatusLaw(c, a, c, now)
  {
    assert HasEnabledKey(c) <==> SomeKeyEnabled(c);
  }

  lemma StillEnabled(c: Channel, x: Channel)
    requires SomeKeyEnabled(c) && x.keys == c.keys
    requires forall i :: StatusOf(c, i) == ENABLED ==> StatusOf(x, i) == ENABLED
    ensures SomeKeyEnabled(x)
  {
    var i :| 0 <= i < |c.keys| && StatusOf(c, i) == ENABLED;
    assert StatusOf(x, i) == ENABLED;
  }

  /** The law holds for every action on every well-formed channel, refusals included. */
  lemma ActStatus(c: Channel, a: Action, now: int)
    requires WellFormed(c)
    ensures StatusLaw(c, a, Act(c, a, now).0, now)
  {
    assert HasEnabledKey(c) <==> SomeKeyEnabled(c);
    hide HasEnabledKey, DisableIfUnavailable, RestoreIfAvailable, SomeKeyEnabled, StatusLaw;
    match a
    case DisableKey(index) =>
      if InRange(c, index) {
        AfterDisable(c, a, c.(statusList := c.statusList[index.i := MANUALLY_DISABLED]), now);
      } else {
        Untouched(c, a, now);
      }
    case DisableAll =>
      if EnabledBelow(c, c.size) == {} {
        Untouched(c, a, now);
      } else {
        AfterDisable(c, a, c.(statusList := WithDisabled(c.statusList, EnabledBelow(c, c.size))), now);
      }
    case EnableKey(index) => EnableKeyStatus(c, index, now);
    case EnableAll => EnableAllStatus(c, now);
    case DeleteKey(index) => DeletedStatus(c, index, now);
    case DeleteDisabled => PurgedStatus(c, now);
    case Other => Untouched(c, a, now);
  }

  lemma EnableKeyStatus(c: Channel, index: Index, now: int)
    requires WellFormed(c)
    ensures StatusLaw(c, EnableKey(index), Act(c, EnableKey(index), now).0, now)
  {
    assert HasEnabledKey(c) <==> SomeKeyEnabled(c);
    if InRange(c, index) {
      var x := c.(statusList := c.statusList - {index.i}, times := c.times - {index.i},
                  reasons := c.reasons - {index.i});
      if c.status == ENABLED {
        StillEnabled(c, x);
      }
      hide HasEnabledKey, RestoreIfAvailable, SomeKeyEnabled, StatusLaw;
      AfterRestore(c, EnableKey(index), x, now);
    }
  }

  lemma EnableAllStatus(c: Channel, now: int)
    requires WellFormed(c)
    ensures StatusLaw(c, EnableAll, Act(c, EnableAll, now).0, now)
  {
    assert HasEnabledKey(c) <==> SomeKeyEnabled(c);
    var x := c.(statusList := map[], times := map[], reasons := map[]);
    if c.status == ENABLED {
      StillEnabled(c, x);
    }
    hide HasEnabledKey, RestoreIfAvailable, SomeKeyEnabled, StatusLaw;
    AfterRestore(c, EnableAll, x, now);
  }

  lemma DeletedStatus(c: Channel, index: Index, now: int)
    requires WellFormed(c)
    ensures StatusLaw(c, DeleteKey(index), Deleted(c, index, now).0, now)
  {
    hide Survivors, DisableIfUnavailable, Select, Reindex, StatusLaw;
    Untouched(c, DeleteKey(index), now);
    if InRange(c, index) {
      SurvivorsBound(|c.keys|, {index.i});
      AfterDisable(c, DeleteKey(index), Kept(c, Survivors(|c.keys|, {index.i})), now);
    }
  }

  lemma PurgedStatus(c: Channel, now: int)
    requires WellFormed(c)
    ensures StatusLaw(c, DeleteDisabled, Purged(c, now).0, now)
  {
    hide Survivors, DisableIfUnavailable, Select, Reindex, AutoDisabled, ForDisabled, StatusLaw;
    Untouched(c, DeleteDisabled, now);
    var keep := Survivors(|c.keys|, AutoDisabled(c));
    SurvivorsBound(|c.keys|, AutoDisabled(c));
    var d := c.(times := ForDisabled(c, c.times), reasons := ForDisabled(c, c.reasons));
    AfterDisable(c, DeleteDisabled, Kept(d, keep), now);
  }

  // ----- over whole runs -----

  /** A channel that starts enabled, or disabled for want of keys with none enabled, is enabled after any run exactly
      when it has an enabled key, and else disabled for want of keys. */
  lemma {:induction false} RunStatus(c: Channel, rs: seq<Request>)
    requires WellFormed(c) && (c.status == ENABLED || DisabledForKeys(c))
    ensures var d := Run(c, rs); if SomeKeyEnabled(d) then d.status == ENABLED else DisabledForKeys(d)
    decreases |rs|
  {
    if rs == [] {
      assert HasEnabledKey(c) <==> SomeKeyEnabled(c);
    } else {
      var d := Act(c, rs[0].action, rs[0].now).0;
      ActStatus(c, rs[0].action, rs[0].now);
      ActWellFormed(c, rs[0].action, rs[0].now);
      hide Act, SomeKeyEnabled, WellFormed;
      RunStatus(d, rs[1..]);
    }
  }

  /** A channel disabled for any other reason keeps status, reason and time through every run. */
  lemma {:induction false} RunKeepsDisabled(c: Channel, rs: seq<Request>)
    requires WellFormed(c) && c.status != ENABLED && !DisabledForKeys(c)
    ensures SameStatus(c, Run(c, rs))
    decreases |rs|
  {
    if rs != [] {
      var d := Act(c, rs[0].action, rs[0].now).0;
      ActStatus(c, rs[0].action, rs[0].now);
      ActWellFormed(c, rs[0].action, rs[0].now);
      hide Act, SomeKeyEnabled, WellFormed;
      RunKeepsDisabled(d, rs[1..]);
    }
  }

  // ----- replies -----

  /** The number of keys below `n` with this status. */
  function CountStatus(c: Channel, status: int, n: nat): nat {
    if n == 0 then 0 else CountStatus(c, status, n - 1) + if StatusOf(c, n - 1) == status then 1 else 0
  }

  /** The number of keys below `n` that have an entry in the status list. */
  function CountListed(c: Channel, n: nat): nat {
    if n == 0 then 0 else CountListed(c, n - 1) + if n - 1 in c.statusList then 1 else 0
  }

  lemma EnabledNext(c: Channel, n: nat)
    ensures EnabledBelow(c, n + 1) == EnabledBelow(c, n) + if StatusOf(c, n) == ENABLED then {n} else {}
    ensures n !in EnabledBelow(c, n)
  {
  }

  lemma {:induction false} CountEnabled(c: Channel, n: nat)
    ensures |EnabledBelow(c, n)| == CountStatus(c, ENABLED, n)
  {
    if n > 0 {
      CountEnabled(c, n - 1);
      EnabledNext(c, n - 1);
      hide EnabledBelow;
    }
  }

  lemma {:induction false} CountAuto(c: Channel, n: nat)
    ensures |AutoBelow(c, n)| == CountStatus(c, AUTO_DISABLED, n)
  {
    if n > 0 {
      CountAuto(c, n - 1);
      AutoBelowNext(c, n - 1);
    }
  }

  function ListedBelow(c: Channel, n: nat): set<int> {
    set i | 0 <= i < n && i in c.statusList
  }

  lemma ListedNext(c: Channel, n: nat)
    ensures ListedBelow(c, n + 1) == ListedBelow(c, n) + if n in c.statusList then {n} else {}
    ensures n !in ListedBelow(c, n)
  {
  }

  lemma {:induction false} CountEntries(c: Channel, n: nat)
    ensures |ListedBelow(c, n)| == CountListed(c, n)
  {
    if n > 0 {
      CountEntries(c, n - 1);
      ListedNext(c, n - 1);
      hide ListedBelow;
    }
  }

  lemma AllListed(c: Channel)
    requires Shaped(c)
    ensures |c.statusList| == CountListed(c, |c.keys|)
  {
    CountEntries(c, |c.keys|);
    assert c.statusList.Keys == ListedBelow(c, |c.keys|);
  }

  /** Why a request about one key is refused: no index, an index that is no key, or the last key. */
  ghost predicate KeyReply(c: Channel, index: Index, deletes: bool, reply: Reply) {
    if index.None? then reply == Refused(NoIndex)
    else if index.i < 0 || index.i >= |c.keys| then reply == Refused(OutOfRange)
    else if deletes && |c.keys| == 1 then reply == Refused(LastKey)
    else reply == Done(1)
  }

  /** A count of nothing is refused. */
  predicate CountReply(count: nat, why: Why, reply: Reply) {
    reply == if count == 0 then Refused(why) else Done(count)
  }

  /** Every reply, counted on the channel before the action; a refused request changes nothing, and a channel
      that is not in multi-key mode refuses every request. */
  lemma ReplyLaw(c: Channel, a: Action, now: int)
    requires c.isMultiKey ==> Shaped(c)
    ensures var (d, reply) := Act(c, a, now);
      && (reply.Refused? ==> d == c)
      && if !c.isMultiKey then reply == Refused(NotMultiKey)
         else
           match a
           case DisableKey(index) => KeyReply(c, index, false, reply)
           case EnableKey(index) => KeyReply(c, index, false, reply)
           case DeleteKey(index) => KeyReply(c, index, true, reply)
           case EnableAll => reply == Done(CountListed(c, |c.keys|))
           case DisableAll => CountReply(CountStatus(c, ENABLED, |c.keys|), NothingToDisable, reply)
           case DeleteDisabled => CountReply(CountStatus(c, AUTO_DISABLED, |c.keys|), NothingToDelete, reply)
           case Other => reply == Refused(Unsupported)
  {
    hide HasEnabledKey, DisableIfUnavailable, RestoreIfAvailable, Kept, EnabledBelow, AutoBelow, CountStatus,
      CountListed;
    if c.isMultiKey {
      CountEnabled(c, |c.keys|);
      CountAuto(c, |c.keys|);
      AllListed(c);
      if a.DeleteKey? && InRange(c, a.index) {
        SurvivorsAllBut(|c.keys|, a.index.i);
      }
    }
    hide Survivors;
  }
}
