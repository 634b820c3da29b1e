/** The multi-key state machine of controller/channel.go: the key list, three index-keyed maps and
    the channel status change together, and deletions re-index the maps. */
module MultiKey {

  const ENABLED := 1
  const MANUALLY_DISABLED := 2
  const AUTO_DISABLED := 3
  const ALL_KEYS_DISABLED := "All keys are disabled"

  /** A channel as a value. A nil Go map reads like an empty one and is written as one here.
      `reason` and `statusTime` are the two entries of the other-info record in use. */
  datatype Channel = Channel(
    isMultiKey: bool, keys: seq<string>, size: int, status: int, reason: string, statusTime: int,
    statusList: map<int, int>, times: map<int, int>, reasons: map<int, string>)

  datatype Why = NotMultiKey | NoIndex | OutOfRange | NothingToDisable | LastKey | NothingToDelete | Unsupported

  datatype Reply = Done(count: nat) | Refused(why: Why)

  datatype Index = None | Some(i: int)

  datatype Action =
    | DisableKey(index: Index)
    | EnableKey(index: Index)
    | EnableAll
    | DisableAll
    | DeleteKey(index: Index)
    | DeleteDisabled
    | Other

  /** The status of key `i`: enabled unless the list says otherwise. */
  function StatusOf(c: Channel, i: int): int {
    if i in c.statusList then c.statusList[i] else ENABLED
  }

  ghost predicate HasEnabledKey(c: Channel) {
    !c.isMultiKey || exists i :: 0 <= i < |c.keys| && StatusOf(c, i) == ENABLED
  }

  ghost function DisableIfUnavailable(c: Channel, now: int): Channel {
    if c.isMultiKey && !HasEnabledKey(c) && c.status == ENABLED
    then c.(status := MANUALLY_DISABLED, reason := ALL_KEYS_DISABLED, statusTime := now)
    else c
  }

  ghost function RestoreIfAvailable(c: Channel, now: int): Channel {
    if c.status == MANUALLY_DISABLED && HasEnabledKey(c) && c.reason == ALL_KEYS_DISABLED
    then c.(status := ENABLED, reason := "", statusTime := now)
    else c
  }

  predicate InRange(c: Channel, index: Index) {
    index.Some? && 0 <= index.i < c.size
  }

  function Complaint(index: Index): Why {
    if index.None? then NoIndex else OutOfRange
  }

  // ----- deletion by re-indexing -----

  /** The indices below `n` that are not in `drop`, ascending. */
  function Survivors(n: nat, drop: set<int>): seq<int> {
    if n == 0 then [] else Survivors(n - 1, drop) + if n - 1 in drop then [] else [n - 1]
  }

  function Reindex<V>(m: map<int, V>, keep: seq<int>): map<int, V> {
    map j | 0 <= j < |keep| && keep[j] in m :: m[keep[j]]
  }

  /** Only entries that disable a key are carried over. */
  function Disabling(m: map<int, int>): map<int, int> {
    map i | i in m && m[i] != ENABLED :: m[i]
  }

  ghost predicate Indices(keep: seq<int>, n: int) {
    forall j :: 0 <= j < |keep| ==> 0 <= keep[j] < n
  }

  function Select<T>(s: seq<T>, keep: seq<int>): seq<T>
    requires Indices(keep, |s|)
  {
    seq(|keep|, j requires 0 <= j < |keep| => s[keep[j]])
  }

  function Kept(c: Channel, keep: seq<int>): Channel
    requires Indices(keep, |c.keys|)
  {
    c.(keys := Select(c.keys, keep), size := |keep|,
       statusList := Reindex(Disabling(c.statusList), keep),
       times := Reindex(c.times, keep), reasons := Reindex(c.reasons, keep))
  }

  function AutoBelow(c: Channel, n: nat): set<int> {
    set i | 0 <= i < n && StatusOf(c, i) == AUTO_DISABLED
  }

  function AutoDisabled(c: Channel): set<int> {
    AutoBelow(c, |c.keys|)
  }

  /** Time and reason survive this deletion only for keys that are not enabled. */
  function ForDisabled<V>(c: Channel, m: map<int, V>): map<int, V> {
    map i | i in m && StatusOf(c, i) != ENABLED :: m[i]
  }

  // ----- the actions -----

  function EnabledBelow(c: Channel, n: int): set<int> {
    set i | 0 <= i < n && StatusOf(c, i) == ENABLED
  }

  function WithDisabled(m: map<int, int>, keys: set<int>): map<int, int> {
    m + map i | i in keys :: MANUALLY_DISABLED
  }

  ghost function Act(c: Channel, a: Action, now: int): (Channel, Reply) {
    if !c.isMultiKey then (c, Refused(NotMultiKey))
    else
      match a
      case DisableKey(index) =>
        if !InRange(c, index) then (c, Refused(Complaint(index)))
        else (DisableIfUnavailable(c.(statusList := c.statusList[index.i := MANUALLY_DISABLED]), now), Done(1))
      case EnableKey(index) =>
        if !InRange(c, index) then (c, Refused(Complaint(index)))
        else
          (RestoreIfAvailable(c.(statusList := c.statusList - {index.i}, times := c.times - {index.i},
                                 reasons := c.reasons - {index.i}), now), Done(1))
      case EnableAll =>
        (RestoreIfAvailable(c.(statusList := map[], times := map[], reasons := map[]), now), Done(|c.statusList|))
      case DisableAll =>
        var enabled := EnabledBelow(c, c.size);
        if enabled == {} then (c, Refused(NothingToDisable))
        else (DisableIfUnavailable(c.(statusList := WithDisabled(c.statusList, enabled)), now), Done(|enabled|))
      case DeleteKey(index) => Deleted(c, index, now)
      case DeleteDisabled => Purged(c, now)
      case Other => (c, Refused(Unsupported))
  }

  ghost function Deleted(c: Channel, index: Index, now: int): (Channel, Reply) {
    if !InRange(c, index) then (c, Refused(Complaint(index)))
    else
      var keep := Survivors(|c.keys|, {index.i});
      SurvivorsBound(|c.keys|, {index.i});
      if keep == [] then (c, Refused(LastKey))
      else (DisableIfUnavailable(Kept(c, keep), now), Done(1))
  }

  ghost function Purged(c: Channel, now: int): (Channel, Reply) {
    var auto := AutoDisabled(c);
    var keep := Survivors(|c.keys|, auto);
    SurvivorsBound(|c.keys|, auto);
    if auto == {} then (c, Refused(NothingToDelete))
    else
      var d := c.(times := ForDisabled(c, c.times), reasons := ForDisabled(c, c.reasons));
      (DisableIfUnavailable(Kept(d, keep), now), Done(|auto|))
  }

  lemma {:induction false} SurvivorsBound(n: nat, drop: set<int>)
    ensures Indices(Survivors(n, drop), n)
    ensures |Survivors(n, drop)| <= n
    ensures forall i :: i in Survivors(n, drop) <==> 0 <= i < n && i !in drop
    ensures forall j, k :: 0 <= j < k < |Survivors(n, drop)| ==> Survivors(n, drop)[j] < Survivors(n, drop)[k]
  {
    if n > 0 {
      SurvivorsBound(n - 1, drop);
    }
  }

  // ----- what every action keeps -----

  ghost predicate KeysInRange<V>(m: map<int, V>, n: int) {
    forall i :: i in m ==> 0 <= i < n
  }

  /** The recorded size is the number of keys, and the maps mention only existing keys. */
  ghost predicate Shaped(c: Channel) {
    && c.isMultiKey
    && c.size == |c.keys|
    && KeysInRange(c.statusList, c.size) && KeysInRange(c.times, c.size) && KeysInRange(c.reasons, c.size)
  }

  /** Besides, an enabled channel has an enabled key, and one disabled for want of enabled keys has none. */
  ghost predicate WellFormed(c: Channel) {
    && Shaped(c)
    && (c.status == ENABLED ==> HasEnabledKey(c))
    && (c.status == MANUALLY_DISABLED && c.reason == ALL_KEYS_DISABLED ==> !HasEnabledKey(c))
  }

  /** Deletion re-indexing: survivors keep their order and their effective status. */
  lemma KeptMeaning(c: Channel, keep: seq<int>, j: int)
    requires Indices(keep, |c.keys|) && 0 <= j < |keep|
    ensures Kept(c, keep).keys[j] == c.keys[keep[j]]
    ensures StatusOf(Kept(c, keep), j) == StatusOf(c, keep[j])
    ensures j in Kept(c, keep).times <==> keep[j] in c.times
    ensures keep[j] in c.times ==> Kept(c, keep).times[j] == c.times[keep[j]]
    ensures j in Kept(c, keep).reasons <==> keep[j] in c.reasons
    ensures keep[j] in c.reasons ==> Kept(c, keep).reasons[j] == c.reasons[keep[j]]
  {
  }

  lemma KeptEnabled(c: Channel, keep: seq<int>)
    requires Indices(keep, |c.keys|)
    ensures HasEnabledKey(Kept(c, keep)) ==> HasEnabledKey(c)
    ensures (forall i :: 0 <= i < |c.keys| && StatusOf(c, i) == ENABLED ==> i in keep) ==>
              (HasEnabledKey(c) <==> HasEnabledKey(Kept(c, keep)))
  {
    var k := Kept(c, keep);
    if c.isMultiKey && HasEnabledKey(k) {
      var j :| 0 <= j < |k.keys| && StatusOf(k, j) == ENABLED;
      KeptMeaning(c, keep, j);
    }
    if c.isMultiKey && HasEnabledKey(c) && (forall i :: 0 <= i < |c.keys| && StatusOf(c, i) == ENABLED ==> i in keep) {
      var i :| 0 <= i < |c.keys| && StatusOf(c, i) == ENABLED;
      var j :| 0 <= j < |keep| && keep[j] == i;
      KeptMeaning(c, keep, j);
      assert StatusOf(k, j) == ENABLED;
    }
  }

  lemma DisableWellFormed(c: Channel, now: int)
    requires Shaped(c)
    requires c.status == MANUALLY_DISABLED && c.reason == ALL_KEYS_DISABLED ==> !HasEnabledKey(c)
    ensures WellFormed(DisableIfUnavailable(c, now))
  {
    var r := DisableIfUnavailable(c, now);
    assert forall i :: StatusOf(r, i) == StatusOf(c, i);
    assert HasEnabledKey(r) <==> HasEnabledKey(c);
  }

  lemma RestoreWellFormed(c: Channel, now: int)
    requires Shaped(c)
    requires c.status == ENABLED ==> HasEnabledKey(c)
    ensures WellFormed(RestoreIfAvailable(c, now))
  {
    var r := RestoreIfAvailable(c, now);
    assert forall i :: StatusOf(r, i) == StatusOf(c, i);
    assert HasEnabledKey(r) <==> HasEnabledKey(c);
  }

  /** Enabled keys of `c` stay enabled in `d`. */
  lemma EnabledKeyMoves(c: Channel, d: Channel)
    requires c.keys == d.keys && c.isMultiKey && d.isMultiKey
    requires forall i :: 0 <= i < |c.keys| && StatusOf(c, i) == ENABLED ==> StatusOf(d, i) == ENABLED
    ensures HasEnabledKey(c) ==> HasEnabledKey(d)
  {
  }

  lemma KeptShaped(c: Channel, keep: seq<int>)
    requires c.isMultiKey && Indices(keep, |c.keys|)
    ensures var k := Kept(c, keep); Shaped(k) && k.status == c.status && k.reason == c.reason
  {
  }

  lemma DeletedWellFormed(c: Channel, index: Index, now: int)
    requires WellFormed(c)
    ensures WellFormed(Deleted(c, index, now).0)
  {
    if InRange(c, index) {
      var keep := Survivors(|c.keys|, {index.i});
      SurvivorsBound(|c.keys|, {index.i});
      KeptEnabled(c, keep);
      KeptShaped(c, keep);
      hide HasEnabledKey, Survivors, DisableIfUnavailable, Kept;
      DisableWellFormed(Kept(c, keep), now);
    }
  }

  lemma PurgedWellFormed(c: Channel, now: int)
    requires WellFormed(c)
    ensures WellFormed(Purged(c, now).0)
  {
    hide HasEnabledKey, Survivors, DisableIfUnavailable, AutoDisabled, ForDisabled, Kept, KeysInRange;
    var keep := Survivors(|c.keys|, AutoDisabled(c));
    assert Indices(keep, |c.keys|) by {
      SurvivorsBound(|c.keys|, AutoDisabled(c));
    }
    var d := c.(times := ForDisabled(c, c.times), reasons := ForDisabled(c, c.reasons));
    EnabledKeyMoves(d, c);
    KeptEnabled(d, keep);
    KeptShaped(d, keep);
    DisableWellFormed(Kept(d, keep), now);
  }

  lemma ActWellFormed(c: Channel, a: Action, now: int)
    requires WellFormed(c)
    ensures WellFormed(Act(c, a, now).0)
  {
    hide HasEnabledKey, Deleted, Purged, DisableIfUnavailable, RestoreIfAvailable;
    match a
    case DisableKey(index) =>
      if InRange(c, index) {
        var d := c.(statusList := c.statusList[index.i := MANUALLY_DISABLED]);
        EnabledKeyMoves(d, c);
        DisableWellFormed(d, now);
      }
    case EnableKey(index) =>
      if InRange(c, index) {
        var d := c.(statusList := c.statusList - {index.i}, times := c.times - {index.i},
                    reasons := c.reasons - {index.i});
        EnabledKeyMoves(c, d);
        RestoreWellFormed(d, now);
      }
    case EnableAll =>
      var d := c.(statusList := map[], times := map[], reasons := map[]);
      EnabledKeyMoves(c, d);
      RestoreWellFormed(d, now);
    case DisableAll =>
      var d := c.(statusList := WithDisabled(c.statusList, EnabledBelow(c, c.size)));
      EnabledKeyMoves(d, c);
      DisableWellFormed(d, now);
    case DeleteKey(index) => DeletedWellFormed(c, index, now);
    case DeleteDisabled => PurgedWellFormed(c, now);
    case Other =>
  }

  /** One management request and the time it is served. */
  datatype Request = Request(action: Action, now: int)

  ghost function Run(c: Channel, rs: seq<Request>): Channel
    decreases |rs|
  {
    if rs == [] then c else Run(Act(c, rs[0].action, rs[0].now).0, rs[1..])
  }

  /** Over every run of management actions the channel stays well formed. */
  lemma {:induction false} RunWellFormed(c: Channel, rs: seq<Request>)
    requires WellFormed(c)
    ensures WellFormed(Run(c, rs))
    decreases |rs|
  {
    if rs != [] {
      ActWellFormed(c, rs[0].action, rs[0].now);
      RunWellFormed(Act(c, rs[0].action, rs[0].now).0, rs[1..]);
    }
  }

  lemma DisableAllDisables(c: Channel, now: int)
    requires Shaped(c)
    ensures !HasEnabledKey(Act(c, DisableAll, now).0)
  {
    var enabled := EnabledBelow(c, c.size);
    var d := Act(c, DisableAll, now).0;
    forall i | 0 <= i < |d.keys|
      ensures StatusOf(d, i) != ENABLED
    {
      assert i in enabled <==> StatusOf(c, i) == ENABLED;
    }
  }

  /** What disabling all keys makes of a well-formed channel. */
  lemma DisableAllResult(c: Channel, now: int)
    requires WellFormed(c)
    ensures var d := Act(c, DisableAll, now).0;
            && Shaped(d) && d.keys == c.keys
            && (c.status == ENABLED ==> d.status == MANUALLY_DISABLED && d.reason == ALL_KEYS_DISABLED && d.keys != [])
            && (c.status != ENABLED ==> d.status == c.status && d.reason == c.reason)
  {
    DisableAllDisables(c, now);
    ActWellFormed(c, DisableAll, now);
  }

  /** Disabling and then enabling all keys: an enabled channel comes back enabled, one disabled for
      want of keys is restored if it has any, and one disabled for another reason stays as it was. */
  lemma DisableAllEnableAll(c: Channel, now: int, later: int)
    requires WellFormed(c)
    ensures var r := Run(c, [Request(DisableAll, now), Request(EnableAll, later)]);
            && r.keys == c.keys && r.statusList == map[]
            && (c.status == ENABLED ==> r.status == ENABLED)
            && (c.status == MANUALLY_DISABLED && c.reason == ALL_KEYS_DISABLED ==>
                  r.status == if c.keys == [] then MANUALLY_DISABLED else ENABLED)
            && (c.status != ENABLED && !(c.status == MANUALLY_DISABLED && c.reason == ALL_KEYS_DISABLED) ==>
                  r.status == c.status && r.reason == c.reason)
  {
    hide Run, WithDisabled, EnabledBelow, HasEnabledKey, Act;
    RunTwo(c, Request(DisableAll, now), Request(EnableAll, later));
    DisableAllResult(c, now);
    EnableAllRestores(Act(c, DisableAll, now).0, later);
  }

  lemma RunTwo(c: Channel, p: Request, q: Request)
    ensures Run(c, [p, q]) == Act(Act(c, p.action, p.now).0, q.action, q.now).0
  {
    hide Act;
    var d := Act(c, p.action, p.now).0;
    var e := Act(d, q.action, q.now).0;
    assert [p, q][1..] == [q] && [q][1..] == [];
    assert Run(e, []) == e;
    assert Run(d, [q]) == e;
  }

  lemma EnableAllRestores(d: Channel, now: int)
    requires Shaped(d)
    ensures var r := Act(d, EnableAll, now).0;
            && r.keys == d.keys && r.statusList == map[]
            && (d.status == MANUALLY_DISABLED && d.reason == ALL_KEYS_DISABLED && d.keys != [] ==> r.status == ENABLED)
            && (d.status != MANUALLY_DISABLED || d.reason != ALL_KEYS_DISABLED || d.keys == [] ==>
                  r.status == d.status && r.reason == d.reason)
  {
    var e := d.(statusList := map[], times := map[], reasons := map[]);
    assert d.keys != [] ==> StatusOf(e, 0) == ENABLED;
  }

  // ----- what an action does to each key -----

  /** Actions that keep the key list change the status of just the keys they name: disabling all spares
      keys that are already disabled, enabling clears time and reason, and the other maps stay. */
  lemma StatusEffect(c: Channel, a: Action, now: int, i: int)
    requires WellFormed(c) && 0 <= i < |c.keys| && !a.DeleteKey? && !a.DeleteDisabled?
    ensures var d := Act(c, a, now).0;
            && d.keys == c.keys && d.size == c.size
            && StatusOf(d, i) == (match a
                 case DisableKey(index) => if index == Some(i) then MANUALLY_DISABLED else StatusOf(c, i)
                 case EnableKey(index) => if index == Some(i) then ENABLED else StatusOf(c, i)
                 case EnableAll => ENABLED
                 case DisableAll => if StatusOf(c, i) == ENABLED then MANUALLY_DISABLED else StatusOf(c, i)
                 case _ => StatusOf(c, i))
            && (i in d.times <==> i in c.times && a != EnableAll && a != EnableKey(Some(i)))
            && (i in d.reasons <==> i in c.reasons && a != EnableAll && a != EnableKey(Some(i)))
            && (i in d.times ==> d.times[i] == c.times[i]) && (i in d.reasons ==> d.reasons[i] == c.reasons[i])
  {
    hide HasEnabledKey;
    if a.DisableAll? && EnabledBelow(c, c.size) == {} {
      assert i !in EnabledBelow(c, c.size);
    }
  }

  /** Deleting key `k` of several closes the gap: the others keep their order, status, time and reason. */
  lemma DeleteEffect(c: Channel, k: nat, now: int, j: nat)
    requires WellFormed(c) && k < |c.keys| && j < |c.keys| - 1
    ensures var d, i := Act(c, DeleteKey(Some(k)), now).0, if j < k then j else j + 1;
            && d.keys == c.keys[..k] + c.keys[k + 1..]
            && StatusOf(d, j) == StatusOf(c, i)
            && (j in d.times <==> i in c.times) && (i in c.times ==> d.times[j] == c.times[i])
            && (j in d.reasons <==> i in c.reasons) && (i in c.reasons ==> d.reasons[j] == c.reasons[i])
  {
    var keep := Survivors(|c.keys|, {k});
    DeleteOne(c, k, now);
    SurvivorsAllBut(|c.keys|, k);
    KeptMeaning(c, keep, j);
    SelectAllBut(c.keys, keep, k);
    hide Survivors, HasEnabledKey, Act, Reindex, Disabling, Select;
  }

  lemma SelectAllBut<T>(s: seq<T>, keep: seq<int>, k: nat)
    requires k < |s| && |keep| == |s| - 1 && Indices(keep, |s|)
    requires forall j :: 0 <= j < |keep| ==> keep[j] == if j < k then j else j + 1
    ensures Select(s, keep) == s[..k] + s[k + 1..]
  {
  }

  /** After a deletion the status list holds exactly the keys that are not enabled. */
  lemma DeletionTidies(c: Channel, index: Index, now: int, j: nat)
    requires WellFormed(c) && Act(c, DeleteKey(index), now).1.Done?
    ensures var d := Act(c, DeleteKey(index), now).0;
      j in d.statusList <==> j < |d.keys| && StatusOf(d, j) != ENABLED
  {
    hide HasEnabledKey, Survivors, Kept, StatusOf;
    SurvivorsBound(|c.keys|, {index.i});
    KeptListed(c, Survivors(|c.keys|, {index.i}), j);
    SameStatuses(Kept(c, Survivors(|c.keys|, {index.i})), Act(c, DeleteKey(index), now).0, j);
  }

  /** So it does after a purge, and enabled keys then have neither time nor reason. */
  lemma PurgeTidies(c: Channel, now: int, j: nat)
    requires WellFormed(c) && Act(c, DeleteDisabled, now).1.Done?
    ensures var d := Act(c, DeleteDisabled, now).0;
      && (j in d.statusList <==> j < |d.keys| && StatusOf(d, j) != ENABLED)
      && (StatusOf(d, j) == ENABLED ==> j !in d.times && j !in d.reasons)
  {
    hide HasEnabledKey, Survivors, Kept, StatusOf, AutoDisabled, ForDisabled;
    var x := c.(times := ForDisabled(c, c.times), reasons := ForDisabled(c, c.reasons));
    var keep := Survivors(|c.keys|, AutoDisabled(c));
    SurvivorsBound(|c.keys|, AutoDisabled(c));
    KeptListed(x, keep, j);
    SameStatuses(Kept(x, keep), Act(c, DeleteDisabled, now).0, j);
    if j < |keep| {
      KeptMeaning(x, keep, j);
      ForDisabledOnly(c, keep[j]);
    }
  }

  lemma ForDisabledOnly(c: Channel, i: int)
    ensures var x := c.(times := ForDisabled(c, c.times), reasons := ForDisabled(c, c.reasons));
      StatusOf(x, i) == ENABLED ==> i !in x.times && i !in x.reasons
  {
  }

  lemma SameStatuses(x: Channel, d: Channel, j: int)
    requires d.statusList == x.statusList
    ensures StatusOf(d, j) == StatusOf(x, j)
  {
  }

  lemma KeptListed(x: Channel, keep: seq<int>, j: nat)
    requires Indices(keep, |x.keys|)
    ensures var d := Kept(x, keep);
      && |d.keys| == |keep| && (j in d.statusList <==> j < |d.keys| && StatusOf(d, j) != ENABLED)
      && (j in d.times || j in d.reasons ==> j < |keep|)
  {
  }

  // ----- purging is deleting one by one -----

  ghost predicate Ascending(s: seq<int>) {
    forall j, k :: 0 <= j < k < |s| ==> s[j] < s[k]
  }

  lemma {:induction false} AscendingUnique(a: seq<int>, b: seq<int>)
    requires Ascending(a) && Ascending(b) && forall i :: i in a <==> i in b
    ensures a == b
  {
    if a != [] || b != [] {
      var x := if a != [] then a[0] else b[0];
      assert x in a && x in b;
      var m, n := |a| - 1, |b| - 1;
      assert a[m] in b && b[n] in a;
      assert a[m] == b[n];
      forall i
        ensures i in a[..m] <==> i in b[..n]
      {
        assert i in a[..m] <==> i in a && i != a[m];
        assert i in b[..n] <==> i in b && i != b[n];
      }
      AscendingUnique(a[..m], b[..n]);
      assert a == a[..m] + [a[m]] && b == b[..n] + [b[n]];
    }
  }

  lemma ReindexTwice<V>(m: map<int, V>, a: seq<int>, b: seq<int>)
    requires Indices(b, |a|)
    ensures Reindex(Reindex(m, a), b) == Reindex(m, Select(a, b))
  {
    var x, y, s := Reindex(Reindex(m, a), b), Reindex(m, Select(a, b)), Select(a, b);
    forall j
      ensures j in x <==> j in y
      ensures j in x ==> x[j] == y[j]
    {
      if 0 <= j < |b| {
        assert s[j] == a[b[j]];
      }
    }
  }

  lemma DisablingReindexed(m: map<int, int>, a: seq<int>)
    ensures Disabling(Reindex(Disabling(m), a)) == Reindex(Disabling(m), a)
  {
  }

  /** Re-indexing twice is re-indexing once by the composed selection. */
  lemma KeptTwice(c: Channel, a: seq<int>, b: seq<int>)
    requires Indices(a, |c.keys|) && Indices(b, |a|)
    ensures Indices(Select(a, b), |c.keys|) && Kept(Kept(c, a), b) == Kept(c, Select(a, b))
  {
    assert Select(Select(c.keys, a), b) == Select(c.keys, Select(a, b));
    DisablingReindexed(c.statusList, a);
    ReindexTwice(Disabling(c.statusList), a, b);
    ReindexTwice(c.times, a, b);
    ReindexTwice(c.reasons, a, b);
    hide Reindex, Disabling, Select;
  }

  lemma SurvivorsAscend(n: nat, drop: set<int>)
    ensures var s := Survivors(n, drop);
            Indices(s, n) && Ascending(s) && forall i :: i in s <==> 0 <= i < n && i !in drop
  {
    SurvivorsBound(n, drop);
  }

  /** Dropping index `k` and then `drop`, all below `k`, drops both. */
  lemma SurvivorsCompose(n: nat, k: nat, drop: set<int>)
    requires k < n && forall i :: i in drop ==> 0 <= i < k
    ensures |Survivors(n, {k})| == n - 1 && Indices(Survivors(n - 1, drop), n - 1)
    ensures Select(Survivors(n, {k}), Survivors(n - 1, drop)) == Survivors(n, drop + {k})
  {
    hide Survivors, Select, Ascending, Indices;
    var a, b, t := Survivors(n, {k}), Survivors(n - 1, drop), Survivors(n, drop + {k});
    SurvivorsAllBut(n, k);
    SurvivorsAscend(n - 1, drop);
    SurvivorsAscend(n, drop + {k});
    SelectComposed(a, b, t, n, k, drop);
  }

  lemma SelectComposed(a: seq<int>, b: seq<int>, t: seq<int>, n: nat, k: nat, drop: set<int>)
    requires k < n && (forall x :: x in drop ==> 0 <= x < k)
    requires |a| == n - 1 && forall j :: 0 <= j < n - 1 ==> a[j] == if j < k then j else j + 1
    requires Indices(b, n - 1) && Ascending(b) && forall x :: x in b <==> 0 <= x < n - 1 && x !in drop
    requires Ascending(t) && forall x :: x in t <==> 0 <= x < n && x !in drop + {k}
    ensures Select(a, b) == t
  {
    var s := Select(a, b);
    assert forall j :: 0 <= j < |s| ==> s[j] == if b[j] < k then b[j] else b[j] + 1;
    assert Ascending(s);
    forall i
      ensures i in s <==> i in t
    {
      SelectedMember(b, s, n, k, drop, i);
    }
    AscendingUnique(s, t);
  }

  lemma SelectedMember(b: seq<int>, s: seq<int>, n: nat, k: nat, drop: set<int>, i: int)
    requires k < n && (forall x :: x in drop ==> 0 <= x < k)
    requires forall x :: x in b <==> 0 <= x < n - 1 && x !in drop
    requires |s| == |b| && forall j :: 0 <= j < |s| ==> s[j] == if b[j] < k then b[j] else b[j] + 1
    ensures i in s <==> 0 <= i < n && i !in drop + {k}
  {
    if i in s {
      var j :| 0 <= j < |s| && s[j] == i;
      assert b[j] in b;
    }
    if 0 <= i < n && i !in drop && i != k {
      var p := if i < k then i else i - 1;
      assert p in b;
      var j :| 0 <= j < |b| && b[j] == p;
      assert s[j] == i;
    }
  }

  lemma {:induction false} SurvivorsNone(n: nat, drop: set<int>)
    requires forall i :: i in drop ==> i < 0 || n <= i
    ensures Survivors(n, drop) == seq(n, i => i)
  {
    if n > 0 {
      SurvivorsNone(n - 1, drop);
    }
  }

  lemma {:induction false} SurvivorsAllBut(n: nat, k: nat)
    requires k < n
    ensures |Survivors(n, {k})| == n - 1
    ensures forall j :: 0 <= j < n - 1 ==> Survivors(n, {k})[j] == if j < k then j else j + 1
  {
    if k == n - 1 {
      SurvivorsNone(n - 1, {k});
    } else {
      SurvivorsAllBut(n - 1, k);
    }
  }

  /** Disabling for want of keys commutes with a deletion that spares every enabled key. */
  lemma DisableThenKeep(x: Channel, keep: seq<int>, now: int)
    requires Indices(keep, |x.keys|) && forall i :: 0 <= i < |x.keys| && StatusOf(x, i) == ENABLED ==> i in keep
    ensures DisableIfUnavailable(Kept(DisableIfUnavailable(x, now), keep), now)
         == DisableIfUnavailable(Kept(x, keep), now)
  {
    KeptEnabled(x, keep);
    var y := DisableIfUnavailable(x, now);
    assert forall i :: StatusOf(y, i) == StatusOf(x, i);
    assert HasEnabledKey(y) <==> HasEnabledKey(x);
    KeptEnabled(y, keep);
  }

  /** `delete_key` on each auto-disabled index below `n`, from the highest to the lowest. */
  ghost function DeleteAutoBelow(c: Channel, n: nat, now: int): Channel
    decreases n
  {
    if n == 0 then c
    else
      DeleteAutoBelow(
        if StatusOf(c, n - 1) == AUTO_DISABLED then Act(c, DeleteKey(Some(n - 1)), now).0 else c,
        n - 1, now)
  }

  /** The state that deleting the auto-disabled keys below `n` one by one arrives at. */
  ghost function DeletedBelow(c: Channel, n: nat, now: int): Channel
    requires n <= |c.keys|
  {
    SurvivorsBound(|c.keys|, AutoBelow(c, n));
    if AutoBelow(c, n) == {} then c else DisableIfUnavailable(Kept(c, Survivors(|c.keys|, AutoBelow(c, n))), now)
  }

  /** One deletion at `n - 1`, then the rest below it. */
  lemma DeletedBelowStep(c: Channel, n: nat, now: int)
    requires c.isMultiKey && 0 < n <= |c.keys| && StatusOf(c, n - 1) == AUTO_DISABLED
    requires Indices(Survivors(|c.keys|, {n - 1}), |c.keys|)
    ensures var d := DisableIfUnavailable(Kept(c, Survivors(|c.keys|, {n - 1})), now);
            |d.keys| == |c.keys| - 1 && DeletedBelow(d, n - 1, now) == DeletedBelow(c, n, now)
            && AutoBelow(d, n - 1) == AutoBelow(c, n - 1)
  {
    var k, size := n - 1, |c.keys|;
    var a := Survivors(size, {k});
    var x := Kept(c, a);
    var d := DisableIfUnavailable(x, now);
    SurvivorsAllBut(size, k);
    var drop := AutoBelow(c, k);
    forall i | 0 <= i < k
      ensures StatusOf(x, i) == StatusOf(c, i) == StatusOf(d, i)
    {
      KeptMeaning(c, a, i);
    }
    assert AutoBelow(d, k) == drop == AutoBelow(x, k);
    assert AutoBelow(c, n) == drop + {k};
    if drop == {} {
      assert drop + {k} == {k};
    } else {
      var b := Survivors(size - 1, drop);
      SurvivorsBound(size - 1, drop);
      SurvivorsCompose(size, k, drop);
      KeptTwice(c, a, b);
      forall i | 0 <= i < |x.keys| && StatusOf(x, i) == ENABLED
        ensures i in b
      {
        assert i !in AutoBelow(x, k);
      }
      DisableThenKeep(x, b, now);
    }
  }

  lemma DeleteOne(c: Channel, k: nat, now: int)
    requires c.isMultiKey && c.size == |c.keys| && k < |c.keys| && |c.keys| > 1
    ensures Indices(Survivors(|c.keys|, {k}), |c.keys|)
    ensures var d := DisableIfUnavailable(Kept(c, Survivors(|c.keys|, {k})), now);
            Act(c, DeleteKey(Some(k)), now) == (d, Done(1)) && d.isMultiKey && d.size == |d.keys|
  {
    SurvivorsBound(|c.keys|, {k});
    SurvivorsAllBut(|c.keys|, k);
  }

  lemma {:induction false} DeleteAutoIsDeletedBelow(c: Channel, n: nat, now: int)
    requires c.isMultiKey && c.size == |c.keys| && n <= |c.keys|
    requires |AutoBelow(c, n)| < |c.keys|
    ensures DeleteAutoBelow(c, n, now) == DeletedBelow(c, n, now)
    decreases n
  {
    hide Act, DisableIfUnavailable, Kept, Survivors, AutoBelow, StatusOf, DeletedBelow;
    if n == 0 {
      DeletedBelowNone(c, now);
    } else {
      AutoBelowNext(c, n - 1);
      if StatusOf(c, n - 1) == AUTO_DISABLED {
        var d := Act(c, DeleteKey(Some(n - 1)), now).0;
        assert DeleteAutoBelow(c, n, now) == DeleteAutoBelow(d, n - 1, now);
        hide DeleteAutoBelow;
        DeleteOne(c, n - 1, now);
        DeletedBelowStep(c, n, now);
        DeleteAutoIsDeletedBelow(d, n - 1, now);
      } else {
        assert DeleteAutoBelow(c, n, now) == DeleteAutoBelow(c, n - 1, now);
        hide DeleteAutoBelow;
        DeletedBelowSkip(c, n, now);
        DeleteAutoIsDeletedBelow(c, n - 1, now);
      }
    }
  }

  lemma DeletedBelowNone(c: Channel, now: int)
    ensures DeletedBelow(c, 0, now) == c
  {
    hide Kept, Survivors, DisableIfUnavailable;
    AutoBelowEnds(c);
  }

  lemma DeletedBelowSkip(c: Channel, n: nat, now: int)
    requires 0 < n <= |c.keys| && StatusOf(c, n - 1) != AUTO_DISABLED
    ensures DeletedBelow(c, n - 1, now) == DeletedBelow(c, n, now)
  {
    hide AutoBelow, Kept, Survivors, DisableIfUnavailable;
    AutoBelowNext(c, n - 1);
    assert AutoBelow(c, n) == AutoBelow(c, n - 1);
  }

  lemma AutoBelowEnds(c: Channel)
    ensures AutoBelow(c, 0) == {} && AutoBelow(c, |c.keys|) == AutoDisabled(c)
    ensures forall i :: 0 <= i < |c.keys| ==> (i in AutoDisabled(c) <==> StatusOf(c, i) == AUTO_DISABLED)
  {
  }

  lemma AutoBelowNext(c: Channel, n: nat)
    ensures AutoBelow(c, n + 1) == AutoBelow(c, n) + if StatusOf(c, n) == AUTO_DISABLED then {n} else {}
    ensures n !in AutoBelow(c, n)
    ensures |AutoBelow(c, n + 1)| == |AutoBelow(c, n)| + if StatusOf(c, n) == AUTO_DISABLED then 1 else 0
  {
    assert AutoBelow(c, n + 1) == AutoBelow(c, n) + if StatusOf(c, n) == AUTO_DISABLED then {n} else {};
  }

  /** `delete_disabled_keys` and one-by-one deletion agree on keys, statuses and channel status, and on
      time and reason of every key that is not enabled. */
  ghost predicate SamePurge(p: Channel, d: Channel) {
    && p.keys == d.keys && p.size == d.size && p.statusList == d.statusList
    && p.status == d.status && p.reason == d.reason && p.statusTime == d.statusTime
    && (forall j :: 0 <= j < |p.keys| && StatusOf(p, j) != ENABLED ==>
          && (j in p.times <==> j in d.times) && (j in p.times ==> p.times[j] == d.times[j])
          && (j in p.reasons <==> j in d.reasons) && (j in p.reasons ==> p.reasons[j] == d.reasons[j]))
  }

  lemma SamePurgeDisable(x: Channel, y: Channel, now: int)
    requires SamePurge(x, y) && x.isMultiKey && y.isMultiKey
    ensures SamePurge(DisableIfUnavailable(x, now), DisableIfUnavailable(y, now))
  {
    EnabledKeyMoves(x, y);
    EnabledKeyMoves(y, x);
    hide HasEnabledKey;
  }

  /** Forgetting time and reason of enabled keys does not show in what a purge compares. */
  lemma KeptForDisabled(c: Channel, keep: seq<int>)
    requires Indices(keep, |c.keys|)
    ensures var d := c.(times := ForDisabled(c, c.times), reasons := ForDisabled(c, c.reasons));
            SamePurge(Kept(d, keep), Kept(c, keep))
  {
    var d := c.(times := ForDisabled(c, c.times), reasons := ForDisabled(c, c.reasons));
    var x, y := Kept(d, keep), Kept(c, keep);
    assert forall i :: StatusOf(d, i) == StatusOf(c, i);
    forall j | 0 <= j < |keep| && StatusOf(x, j) != ENABLED
      ensures (j in x.times <==> j in y.times) && (j in x.times ==> x.times[j] == y.times[j])
      ensures (j in x.reasons <==> j in y.reasons) && (j in x.reasons ==> x.reasons[j] == y.reasons[j])
    {
      KeptMeaning(d, keep, j);
      KeptMeaning(c, keep, j);
    }
  }

  lemma PurgeKeeps(c: Channel, now: int)
    requires c.isMultiKey && AutoDisabled(c) != {}
    ensures Indices(Survivors(|c.keys|, AutoDisabled(c)), |c.keys|)
    ensures SamePurge(Purged(c, now).0, DisableIfUnavailable(Kept(c, Survivors(|c.keys|, AutoDisabled(c))), now))
  {
    var keep := Survivors(|c.keys|, AutoDisabled(c));
    SurvivorsBound(|c.keys|, AutoDisabled(c));
    hide Survivors, SamePurge, AutoDisabled, DisableIfUnavailable;
    KeptForDisabled(c, keep);
    var d := c.(times := ForDisabled(c, c.times), reasons := ForDisabled(c, c.reasons));
    SamePurgeDisable(Kept(d, keep), Kept(c, keep), now);
  }

  /** One purge equals deleting every auto-disabled key from the highest index down, exactly when a key
      survives or there is nothing to purge: the last key is never deleted singly. */
  lemma PurgeIsDeletes(c: Channel, now: int)
    requires c.isMultiKey && c.size == |c.keys|
    ensures SamePurge(Act(c, DeleteDisabled, now).0, DeleteAutoBelow(c, |c.keys|, now))
       <==> (AutoDisabled(c) == {} || exists i :: 0 <= i < |c.keys| && StatusOf(c, i) != AUTO_DISABLED)
  {
    var n := |c.keys|;
    AutoBelowEnds(c);
    hide Survivors, Kept, DisableIfUnavailable, AutoBelow, ForDisabled;
    assert Indices(Survivors(n, AutoDisabled(c)), n) by {
      SurvivorsBound(n, AutoDisabled(c));
    }
    if i :| 0 <= i < n && StatusOf(c, i) != AUTO_DISABLED {
      AutoBelowProper(c, n, i);
      DeleteAutoIsDeletedBelow(c, n, now);
      if AutoDisabled(c) != {} {
        PurgeKeeps(c, now);
      }
    } else if AutoDisabled(c) == {} {
      assert n == 0 by {
        assert n > 0 ==> 0 in AutoDisabled(c);
      }
    } else {
      DeleteAutoKeepsOne(c, n, now);
      PurgedGone(c, now);
    }
  }

  /** A concrete difference: the only key, auto-disabled, is purged but cannot be deleted singly. */
  lemma LastKeyExample(now: int)
    ensures var c := Channel(true, ["k"], 1, MANUALLY_DISABLED, "", 0, map[0 := AUTO_DISABLED], map[], map[]);
      && Act(c, DeleteDisabled, now).0.keys == []
      && Act(c, DeleteKey(Some(0)), now) == (c, Refused(LastKey))
      && !SamePurge(Act(c, DeleteDisabled, now).0, DeleteAutoBelow(c, 1, now))
  {
    var c := Channel(true, ["k"], 1, MANUALLY_DISABLED, "", 0, map[0 := AUTO_DISABLED], map[], map[]);
    assert Survivors(1, {0}) == [];
    AutoBelowEnds(c);
    PurgedGone(c, now);
    hide AutoBelow, ForDisabled, Kept, DisableIfUnavailable, SamePurge;
    PurgeIsDeletes(c, now);
  }

  lemma PurgedGone(c: Channel, now: int)
    requires c.isMultiKey && c.keys != [] && forall i :: 0 <= i < |c.keys| ==> StatusOf(c, i) == AUTO_DISABLED
    ensures Purged(c, now).0.keys == []
  {
    AutoBelowEnds(c);
    assert 0 in AutoDisabled(c);
    SurvivorsGone(|c.keys|, AutoDisabled(c));
  }

  lemma {:induction false} SurvivorsGone(n: nat, drop: set<int>)
    requires forall i :: 0 <= i < n ==> i in drop
    ensures Survivors(n, drop) == []
  {
    if n > 0 {
      SurvivorsGone(n - 1, drop);
    }
  }

  lemma {:induction false} AutoBelowProper(c: Channel, n: nat, i: nat)
    ensures |AutoBelow(c, n)| <= n
    ensures i < n && StatusOf(c, i) != AUTO_DISABLED ==> |AutoBelow(c, n)| < n
  {
    if n == 0 {
      AutoBelowEnds(c);
    } else {
      AutoBelowProper(c, n - 1, i);
      AutoBelowNext(c, n - 1);
    }
  }

  lemma {:induction false} DeleteAutoKeepsOne(c: Channel, n: nat, now: int)
    requires c.keys != [] && c.isMultiKey
    ensures DeleteAutoBelow(c, n, now).keys != []
    decreases n
  {
    if n > 0 {
      DeleteAutoKeepsOne(if StatusOf(c, n - 1) == AUTO_DISABLED then Act(c, DeleteKey(Some(n - 1)), now).0 else c,
                         n - 1, now);
    }
  }
}
