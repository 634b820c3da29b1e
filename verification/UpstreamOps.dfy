/** The helpers of controller/channel_upstream_update.go that build seen-sets in loops, and the
    operations that update a channel in place, proved against the functions of Upstream. */
module UpstreamOps {
  import opened Text
  import opened OrderedSets
  import opened Upstream
  import opened UpstreamChecks

  /** The loop that turns a list into a lookup set. */
  method ToSet(names: seq<string>) returns (s: set<string>)
    ensures forall x :: x in s <==> x in names
  {
    s := {};
    for i := 0 to |names|
      invariant forall x :: x in s <==> x in names[..i]
    {
      s := s + {names[i]};
      assert names[..i + 1] == names[..i] + [names[i]];
    }
    assert names[..|names|] == names;
  }

  method MergeModelNames(base: seq<string>, appended: seq<string>) returns (merged: seq<string>)
    ensures merged == Merge(base, appended)
  {
    hide Normalize;
    ghost var head := Normalize(base);
    var extra := Normalize(appended);
    NormalizeSpec(appended);
    merged := Normalize(base);
    var seen := ToSet(merged);
    for i := 0 to |extra|
      invariant merged == head + Minus(extra[..i], head)
      invariant forall x :: x in seen <==> x in head || x in extra[..i]
    {
      assert extra[..i + 1] == extra[..i] + [extra[i]];
      assert extra[..i + 1][..i] == extra[..i];
      if extra[i] !in seen {
        seen := seen + {extra[i]};
        merged := merged + [extra[i]];
      } else {
        assert extra[i] !in extra[..i];
      }
    }
    assert extra[..|extra|] == extra;
  }

  method SubtractModelNames(base: seq<string>, removed: seq<string>) returns (r: seq<string>)
    ensures r == Subtract(base, removed)
  {
    var removeSet := ToSet(Normalize(removed));
    FilterAgree(Normalize(base), x => x !in removeSet, x => x !in Normalize(removed));
    r := Filter(Normalize(base), x => x !in removeSet);
  }

  method IntersectModelNames(base: seq<string>, allowed: seq<string>) returns (r: seq<string>)
    ensures r == Intersect(base, allowed)
  {
    var allowedSet := ToSet(Normalize(allowed));
    FilterAgree(Normalize(base), x => x in allowedSet, x => x in Normalize(allowed));
    r := Filter(Normalize(base), x => x in allowedSet);
  }

  /** `collectPendingUpstreamModelChangesFromModels`. */
  method CollectPending(local: seq<string>, ignored: seq<string>, w: World)
    returns (add: seq<string>, remove: seq<string>)
    ensures add == PendingAdd(w, local, ignored) && remove == PendingRemove(w, local)
  {
    hide Normalize, Hidden;
    var localModels, upstreamModels, rules := Normalize(local), Normalize(w.upstream), Normalize(ignored);
    var localSet := ToSet(localModels);
    var upstreamSet := ToSet(upstreamModels);
    var covered := localSet + w.mapping.Values;
    assert covered == Covered(w, local);
    add := Normalize(Filter(upstreamModels, x => x !in covered && !Hidden(rules, x, w.matches)));
    FilterAgree(localModels, x => x !in w.mapping.Keys && x !in upstreamSet,
                x => x !in w.mapping.Keys && x !in upstreamModels);
    remove := Normalize(Filter(localModels, x => x !in w.mapping.Keys && x !in upstreamSet));
  }

  class Record {
    var models: string
    var ignored: seq<string>
    var detected: seq<string>
    var removed: seq<string>
    var lastCheck: int

    ghost function Value(): Channel
      reads this
    {
      Channel(models, ignored, detected, removed, lastCheck)
    }

    /** `applyChannelUpstreamModelUpdates`. */
    method ApplyUpdates(addIn: seq<string>, ignoreIn: seq<string>, removeIn: seq<string>, now: int)
      returns (added: seq<string>, removedNow: seq<string>, remaining: seq<string>, remainingRemove: seq<string>,
               changed: bool)
      modifies this
      ensures Value() == Apply(old(Value()), addIn, ignoreIn, removeIn, now)
      ensures var a := Selection(old(Value()), addIn, ignoreIn, removeIn);
              && added == a.add && removedNow == a.remove && remaining == a.remaining
              && remainingRemove == a.remainingRemove && (changed <==> a.next != Local(old(Value())))
    {
      hide Normalize, Merge, Subtract, Intersect, ApplySelected, GetModels, Join;
      var pendingAdd, pendingRemove := Normalize(detected), Normalize(removed);
      added := IntersectModelNames(addIn, pendingAdd);
      var ignore := IntersectModelNames(ignoreIn, pendingAdd);
      removedNow := IntersectModelNames(removeIn, pendingRemove);
      removedNow := SubtractModelNames(removedNow, added);
      var origin := Normalize(GetModels(models));
      var next := ApplySelected(origin, added, removedNow);
      changed := origin != next;
      if changed {
        models := Join(next, ',');
      }
      ignored := MergeModelNames(ignored, ignore);
      if |added| > 0 {
        ignored := SubtractModelNames(ignored, added);
      }
      remaining := SubtractModelNames(pendingAdd, added + ignore);
      remainingRemove := SubtractModelNames(pendingRemove, removedNow);
      detected := remaining;
      removed := remainingRemove;
      lastCheck := now;
    }

    /** `checkAndPersistChannelUpstreamModelUpdates` on the in-memory channel: a channel checked less than
        `minInterval` seconds ago is left alone unless forced, and a failed fetch only notes the time. */
    method CheckAndPersist(k: Check, minInterval: int) returns (outcome: Checked)
      modifies this
      ensures outcome == Outcome(old(Value()), k, minInterval)
      ensures Value() == AfterCheck(old(Value()), k, minInterval)
      ensures outcome.Done? && !k.autoSync ==> Fresh(Value(), k.w)
    {
      hide Normalize, Merge, GetModels, Join, PendingAdd, PendingRemove;
      if !k.force && lastCheck > 0 && k.now - lastCheck < minInterval {
        return Skipped;
      }
      lastCheck := k.now;
      if !k.fetched {
        return FetchFailed;
      }
      var add, remove := CollectPending(GetModels(models), ignored, k.w);
      var changed, autoAdded := false, 0;
      if k.autoSync && |add| > 0 {
        var origin := Normalize(GetModels(models));
        var merged := MergeModelNames(origin, add);
        AdoptedCount(k.w, GetModels(models), ignored);
        if |merged| > |origin| {
          models := Join(merged, ',');
          autoAdded := |merged| - |origin|;
          changed := true;
        }
        detected := [];
      } else {
        detected := add;
      }
      removed := remove;
      return Done(changed, autoAdded);
    }
  }
}
