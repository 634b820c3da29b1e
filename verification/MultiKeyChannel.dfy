/** The handlers of controller/channel.go in their own form: a channel record whose fields each
    management action updates in place, proved against the state machine of MultiKey. */
module MultiKeyChannel {
  import opened MultiKey

  lemma ReindexSnoc<V>(m: map<int, V>, keep: seq<int>, x: int)
    ensures Reindex(m, keep + [x]) == if x in m then Reindex(m, keep)[|keep| := m[x]] else Reindex(m, keep)
  {
    assert forall j :: 0 <= j < |keep| ==> (keep + [x])[j] == keep[j];
  }

  lemma SelectSnoc<T>(s: seq<T>, keep: seq<int>, x: int)
    requires Indices(keep, |s|) && 0 <= x < |s|
    ensures Indices(keep + [x], |s|) && Select(s, keep + [x]) == Select(s, keep) + [s[x]]
  {
  }

  /** One turn of a rebuilding loop: what keeping or dropping index `i` does to a re-indexed map. */
  lemma ReindexNext<V>(m: map<int, V>, i: nat, drop: set<int>)
    ensures var r := Reindex(m, Survivors(i, drop));
            Reindex(m, Survivors(i + 1, drop)) == if i in m && i !in drop then r[|Survivors(i, drop)| := m[i]] else r
  {
    ReindexSnoc(m, Survivors(i, drop), i);
    assert i in drop ==> Survivors(i + 1, drop) == Survivors(i, drop);
  }

  lemma SelectNext<T>(s: seq<T>, i: nat, drop: set<int>)
    requires i < |s| && Indices(Survivors(i, drop), |s|)
    ensures Indices(Survivors(i + 1, drop), |s|)
    ensures |Survivors(i + 1, drop)| == |Survivors(i, drop)| + if i in drop then 0 else 1
    ensures Select(s, Survivors(i + 1, drop)) == Select(s, Survivors(i, drop)) + if i in drop then [] else [s[i]]
  {
    SelectSnoc(s, Survivors(i, drop), i);
    assert i in drop ==> Survivors(i + 1, drop) == Survivors(i, drop);
  }

  lemma SelectSize<T>(s: seq<T>, keep: seq<int>)
    requires Indices(keep, |s|)
    ensures |Select(s, keep)| == |keep|
  {
  }

  lemma DisablingAt(m: map<int, int>, i: int)
    ensures i in Disabling(m) <==> i in m && m[i] != ENABLED
    ensures i in Disabling(m) ==> Disabling(m)[i] == m[i]
  {
  }

  lemma ForDisabledAt<V>(c: Channel, m: map<int, V>, i: int)
    ensures i in ForDisabled(c, m) <==> i in m && StatusOf(c, i) != ENABLED
    ensures i in ForDisabled(c, m) ==> ForDisabled(c, m)[i] == m[i]
  {
  }

  /** Nothing is selected from before the first index. */
  lemma NothingYet<T, V>(s: seq<T>, m: map<int, V>, drop: set<int>)
    ensures Survivors(0, drop) == [] && Indices([], |s|) && Select(s, []) == [] && Reindex(m, []) == map[]
  {
  }

  lemma EnabledBelowEnds(c: Channel)
    ensures EnabledBelow(c, 0) == {} && WithDisabled(c.statusList, {}) == c.statusList
    ensures c.size <= 0 ==> EnabledBelow(c, c.size) == {}
  {
  }

  lemma EnabledBelowNext(c: Channel, n: nat)
    ensures n !in EnabledBelow(c, n)
    ensures EnabledBelow(c, n + 1) == EnabledBelow(c, n) + if StatusOf(c, n) == ENABLED then {n} else {}
    ensures |EnabledBelow(c, n + 1)| == |EnabledBelow(c, n)| + if StatusOf(c, n) == ENABLED then 1 else 0
  {
    assert EnabledBelow(c, n + 1) == EnabledBelow(c, n) + if StatusOf(c, n) == ENABLED then {n} else {};
  }

  lemma WithDisabledAt(m: map<int, int>, keys: set<int>, i: int)
    requires i !in keys
    ensures i in WithDisabled(m, keys) <==> i in m
    ensures i in m ==> WithDisabled(m, keys)[i] == m[i]
    ensures WithDisabled(m, keys + {i}) == WithDisabled(m, keys)[i := MANUALLY_DISABLED]
    ensures keys + {} == keys
  {
  }

  class Record {
    var isMultiKey: bool
    var keys: seq<string>
    var multiKeySize: int
    var status: int
    var statusReason: string
    var statusTime: int
    var statusList: map<int, int>
    var disabledTime: map<int, int>
    var disabledReason: map<int, string>

    ghost function Value(): Channel
      reads this
    {
      Channel(isMultiKey, keys, multiKeySize, status, statusReason, statusTime,
              statusList, disabledTime, disabledReason)
    }

    method HasEnabledMultiKey() returns (found: bool)
      ensures found <==> HasEnabledKey(Value())
    {
      if !isMultiKey {
        return true;
      }
      for i := 0 to |keys|
        invariant forall j :: 0 <= j < i ==> StatusOf(Value(), j) != ENABLED
      {
        if i !in statusList || statusList[i] == ENABLED {
          assert StatusOf(Value(), i) == ENABLED;
          return true;
        }
      }
      return false;
    }

    /** Reports whether live connections of the channel must be closed. */
    method DisableIfUnavailable(now: int) returns (unavailable: bool)
      modifies this
      ensures Value() == MultiKey.DisableIfUnavailable(old(Value()), now)
      ensures unavailable <==> !HasEnabledKey(old(Value()))
    {
      var available := HasEnabledMultiKey();
      if !isMultiKey || available {
        return false;
      }
      if status != ENABLED {
        return true;
      }
      status := MANUALLY_DISABLED;
      statusReason := ALL_KEYS_DISABLED;
      statusTime := now;
      return true;
    }

    method RestoreIfAvailable(now: int)
      modifies this
      ensures Value() == MultiKey.RestoreIfAvailable(old(Value()), now)
    {
      var available := HasEnabledMultiKey();
      if status != MANUALLY_DISABLED || !available {
        return;
      }
      if statusReason != ALL_KEYS_DISABLED {
        return;
      }
      status := ENABLED;
      statusReason := "";
      statusTime := now;
    }

    method DisableKey(index: Index, now: int) returns (reply: Reply)
      requires isMultiKey
      modifies this
      ensures (Value(), reply) == Act(old(Value()), Action.DisableKey(index), now)
    {
      if index.None? {
        return Refused(NoIndex);
      }
      if index.i < 0 || index.i >= multiKeySize {
        return Refused(OutOfRange);
      }
      statusList := statusList[index.i := MANUALLY_DISABLED];
      var unavailable := DisableIfUnavailable(now);
      return Done(1);
    }

    method EnableKey(index: Index, now: int) returns (reply: Reply)
      requires isMultiKey
      modifies this
      ensures (Value(), reply) == Act(old(Value()), Action.EnableKey(index), now)
    {
      if index.None? {
        return Refused(NoIndex);
      }
      if index.i < 0 || index.i >= multiKeySize {
        return Refused(OutOfRange);
      }
      statusList := statusList - {index.i};
      disabledTime := disabledTime - {index.i};
      disabledReason := disabledReason - {index.i};
      RestoreIfAvailable(now);
      return Done(1);
    }

    method EnableAllKeys(now: int) returns (reply: Reply)
      requires isMultiKey
      modifies this
      ensures (Value(), reply) == Act(old(Value()), EnableAll, now)
    {
      var enabledCount := |statusList|;
      statusList := map[];
      disabledTime := map[];
      disabledReason := map[];
      RestoreIfAvailable(now);
      return Done(enabledCount);
    }

    method DisableAllKeys(now: int) returns (reply: Reply)
      requires isMultiKey
      modifies this
      ensures (Value(), reply) == Act(old(Value()), DisableAll, now)
    {
      ghost var before := Value();
      var disabledCount, i := 0, 0;
      EnabledBelowEnds(before);
      hide EnabledBelow, WithDisabled;
      while i < multiKeySize
        invariant 0 <= i && (i <= multiKeySize || i == 0)
        invariant disabledCount == |EnabledBelow(before, i)|
        invariant Value() == before.(statusList := WithDisabled(before.statusList, EnabledBelow(before, i)))
      {
        EnabledBelowNext(before, i);
        WithDisabledAt(before.statusList, EnabledBelow(before, i), i);
        var s := if i in statusList then statusList[i] else ENABLED;
        if s == ENABLED {
          statusList := statusList[i := MANUALLY_DISABLED];
          disabledCount := disabledCount + 1;
        }
        i := i + 1;
      }
      if disabledCount == 0 {
        assert EnabledBelow(before, i) == {};
        return Refused(NothingToDisable);
      }
      var unavailable := DisableIfUnavailable(now);
      return Done(disabledCount);
    }

    /** The loop that copies every key but one, re-indexing what is recorded about it. */
    method Without(keyIndex: int)
      returns (remainingKeys: seq<string>, newStatus: map<int, int>, newTime: map<int, int>,
               newReason: map<int, string>)
      ensures Indices(Survivors(|keys|, {keyIndex}), |keys|)
      ensures remainingKeys == Select(keys, Survivors(|keys|, {keyIndex}))
      ensures newStatus == Reindex(Disabling(statusList), Survivors(|keys|, {keyIndex}))
      ensures newTime == Reindex(disabledTime, Survivors(|keys|, {keyIndex}))
      ensures newReason == Reindex(disabledReason, Survivors(|keys|, {keyIndex}))
    {
      hide Survivors, Reindex, Select, Disabling, Indices;
      ghost var drop := {keyIndex};
      NothingYet(keys, Disabling(statusList), drop);
      NothingYet(keys, disabledTime, drop);
      NothingYet(keys, disabledReason, drop);
      remainingKeys, newStatus, newTime, newReason := [], map[], map[], map[];
      var newIndex := 0;
      for i := 0 to |keys|
        invariant newIndex == |Survivors(i, drop)| && Indices(Survivors(i, drop), |keys|)
        invariant remainingKeys == Select(keys, Survivors(i, drop))
        invariant newStatus == Reindex(Disabling(statusList), Survivors(i, drop))
        invariant newTime == Reindex(disabledTime, Survivors(i, drop))
        invariant newReason == Reindex(disabledReason, Survivors(i, drop))
      {
        SelectNext(keys, i, drop);
        ReindexNext(Disabling(statusList), i, drop);
        ReindexNext(disabledTime, i, drop);
        ReindexNext(disabledReason, i, drop);
        DisablingAt(statusList, i);
        if i == keyIndex {
          continue;
        }
        remainingKeys := remainingKeys + [keys[i]];
        if i in statusList && statusList[i] != ENABLED {
          newStatus := newStatus[newIndex := statusList[i]];
        }
        if i in disabledTime {
          newTime := newTime[newIndex := disabledTime[i]];
        }
        if i in disabledReason {
          newReason := newReason[newIndex := disabledReason[i]];
        }
        newIndex := newIndex + 1;
      }
    }

    method DeleteKey(index: Index, now: int) returns (reply: Reply)
      requires isMultiKey
      modifies this
      ensures (Value(), reply) == Act(old(Value()), Action.DeleteKey(index), now)
    {
      if index.None? {
        return Refused(NoIndex);
      }
      if index.i < 0 || index.i >= multiKeySize {
        return Refused(OutOfRange);
      }
      ghost var before, drop := Value(), {index.i};
      var remainingKeys, newStatus, newTime, newReason := Without(index.i);
      hide Survivors, Reindex, Select, Disabling;
      SelectSize(keys, Survivors(|keys|, drop));
      if |remainingKeys| == 0 {
        return Refused(LastKey);
      }
      keys := remainingKeys;
      multiKeySize := |remainingKeys|;
      statusList := newStatus;
      disabledTime := newTime;
      disabledReason := newReason;
      assert Value() == Kept(before, Survivors(|before.keys|, drop));
      var unavailable := DisableIfUnavailable(now);
      return Done(1);
    }

    /** The loop that copies every key that is not auto-disabled and counts the others. */
    method WithoutAutoDisabled()
      returns (remainingKeys: seq<string>, newStatus: map<int, int>, newTime: map<int, int>,
               newReason: map<int, string>,
               deletedCount: nat)
      ensures var c, drop := Value(), AutoDisabled(Value());
              && Indices(Survivors(|keys|, drop), |keys|)
              && remainingKeys == Select(keys, Survivors(|keys|, drop))
              && newStatus == Reindex(Disabling(statusList), Survivors(|keys|, drop))
              && newTime == Reindex(ForDisabled(c, disabledTime), Survivors(|keys|, drop))
              && newReason == Reindex(ForDisabled(c, disabledReason), Survivors(|keys|, drop))
              && deletedCount == |drop|
    {
      ghost var c, drop := Value(), AutoDisabled(Value());
      ghost var times, reasons := ForDisabled(c, disabledTime), ForDisabled(c, disabledReason);
      AutoBelowEnds(c);
      hide Survivors, Reindex, Select, Disabling, Indices, ForDisabled, AutoDisabled, AutoBelow;
      NothingYet(keys, Disabling(statusList), drop);
      NothingYet(keys, times, drop);
      NothingYet(keys, reasons, drop);
      remainingKeys, newStatus, newTime, newReason, deletedCount := [], map[], map[], map[], 0;
      var newIndex := 0;
      for i := 0 to |keys|
        invariant deletedCount == |AutoBelow(c, i)|
        invariant newIndex == |Survivors(i, drop)| && Indices(Survivors(i, drop), |keys|)
        invariant remainingKeys == Select(keys, Survivors(i, drop))
        invariant newStatus == Reindex(Disabling(statusList), Survivors(i, drop))
        invariant newTime == Reindex(times, Survivors(i, drop))
        invariant newReason == Reindex(reasons, Survivors(i, drop))
      {
        AutoBelowNext(c, i);
        SelectNext(keys, i, drop);
        ReindexNext(Disabling(statusList), i, drop);
        ReindexNext(times, i, drop);
        ReindexNext(reasons, i, drop);
        DisablingAt(statusList, i);
        ForDisabledAt(c, disabledTime, i);
        ForDisabledAt(c, disabledReason, i);
        var s := if i in statusList then statusList[i] else ENABLED;
        if s == AUTO_DISABLED {
          deletedCount := deletedCount + 1;
        } else {
          remainingKeys := remainingKeys + [keys[i]];
          if s != ENABLED {
            newStatus := newStatus[newIndex := s];
            if i in disabledTime {
              newTime := newTime[newIndex := disabledTime[i]];
            }
            if i in disabledReason {
              newReason := newReason[newIndex := disabledReason[i]];
            }
          }
          newIndex := newIndex + 1;
        }
      }
    }

    method DeleteDisabledKeys(now: int) returns (reply: Reply)
      requires isMultiKey
      modifies this
      ensures (Value(), reply) == Act(old(Value()), DeleteDisabled, now)
    {
      ghost var before, drop := Value(), AutoDisabled(Value());
      ghost var kept := before.(times := ForDisabled(before, disabledTime),
                                reasons := ForDisabled(before, disabledReason));
      var remainingKeys, newStatus, newTime, newReason, deletedCount := WithoutAutoDisabled();
      hide Survivors, Reindex, Select, Disabling, ForDisabled, AutoDisabled;
      if deletedCount == 0 {
        assert drop == {};
        return Refused(NothingToDelete);
      }
      keys := remainingKeys;
      multiKeySize := |remainingKeys|;
      statusList := newStatus;
      disabledTime := newTime;
      disabledReason := newReason;
      SelectSize(before.keys, Survivors(|before.keys|, drop));
      assert Value() == Kept(kept, Survivors(|before.keys|, drop));
      var unavailable := DisableIfUnavailable(now);
      return Done(deletedCount);
    }

    /** One management request. */
    method Manage(action: Action, now: int) returns (reply: Reply)
      modifies this
      ensures (Value(), reply) == Act(old(Value()), action, now)
    {
      if !isMultiKey {
        return Refused(NotMultiKey);
      }
      match action
      case DisableKey(index) => reply := DisableKey(index, now);
      case EnableKey(index) => reply := EnableKey(index, now);
      case EnableAll => reply := EnableAllKeys(now);
      case DisableAll => reply := DisableAllKeys(now);
      case DeleteKey(index) => reply := DeleteKey(index, now);
      case DeleteDisabled => reply := DeleteDisabledKeys(now);
      case Other => reply := Refused(Unsupported);
    }
  }
}
