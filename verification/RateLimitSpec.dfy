/** The sliding-window limiter of common/rate-limit.go as a value: what each operation
    does to the buckets, the key-level LRU order and the reservation counters. */
module RateLimitSpec {
  import opened OrderedSets

  const NANOS_PER_SECOND := 1_000_000_000

  /** Whole seconds of an instant given in nanoseconds, as `Time.Unix` reports them. */
  function Unix(t: int): int {
    t / NANOS_PER_SECOND
  }

  lemma UnixFloor(t: int)
    ensures Unix(t) * NANOS_PER_SECOND <= t < (Unix(t) + 1) * NANOS_PER_SECOND
    ensures NANOS_PER_SECOND == 1000 * 1000 * 1000
  {
  }

  // ----- the request queue -----

  predicate Expired(t: int, now: int, duration: int) {
    now - t >= duration
  }

  /** The pop loop: drops entries from the front while they are expired. */
  function PopExpired(s: seq<int>, now: int, duration: int): seq<int> {
    if s != [] && Expired(s[0], now, duration) then PopExpired(s[1..], now, duration) else s
  }

  /** The three-way `removeExpired`: fresh head, expired tail, or the pop loop. */
  function RemoveExpired(s: seq<int>, now: int, duration: int): seq<int> {
    if s == [] || !Expired(s[0], now, duration) then s
    else if Expired(s[|s| - 1], now, duration) then []
    else PopExpired(s, now, duration)
  }

  /** The reference: every unexpired entry, in order. */
  function Live(s: seq<int>, now: int, duration: int): seq<int> {
    if s == [] then []
    else (if Expired(s[0], now, duration) then [] else [s[0]]) + Live(s[1..], now, duration)
  }

  ghost predicate Sorted(s: seq<int>) {
    forall i, j :: 0 <= i <= j < |s| ==> s[i] <= s[j]
  }

  lemma {:induction false} LiveAllFresh(s: seq<int>, now: int, duration: int)
    requires forall i :: 0 <= i < |s| ==> !Expired(s[i], now, duration)
    ensures Live(s, now, duration) == s
  {
    if s != [] {
      LiveAllFresh(s[1..], now, duration);
    }
  }

  lemma {:induction false} LiveAllExpired(s: seq<int>, now: int, duration: int)
    requires forall i :: 0 <= i < |s| ==> Expired(s[i], now, duration)
    ensures Live(s, now, duration) == []
  {
    if s != [] {
      LiveAllExpired(s[1..], now, duration);
    }
  }

  lemma {:induction false} LiveConcat(a: seq<int>, b: seq<int>, now: int, duration: int)
    ensures Live(a + b, now, duration) == Live(a, now, duration) + Live(b, now, duration)
  {
    if a == [] {
      assert a + b == b;
    } else {
      assert (a + b)[1..] == a[1..] + b;
      LiveConcat(a[1..], b, now, duration);
    }
  }

  /** Entries only ever leave the window as time passes. */
  lemma {:induction false} LiveShrinks(s: seq<int>, now: int, later: int, duration: int)
    requires now <= later
    ensures |Live(s, later, duration)| <= |Live(s, now, duration)|
  {
    if s != [] {
      LiveShrinks(s[1..], now, later, duration);
    }
  }

  lemma {:induction false} PopExpiredIsLive(s: seq<int>, now: int, duration: int)
    requires Sorted(s)
    ensures PopExpired(s, now, duration) == Live(s, now, duration)
  {
    if s != [] && Expired(s[0], now, duration) {
      PopExpiredIsLive(s[1..], now, duration);
    } else {
      LiveAllFresh(s, now, duration);
    }
  }

  /** On a time-ordered queue `removeExpired`, shortcut included, is exactly a filter. */
  lemma RemoveExpiredIsLive(s: seq<int>, now: int, duration: int)
    requires Sorted(s)
    ensures RemoveExpired(s, now, duration) == Live(s, now, duration)
  {
    if s == [] || !Expired(s[0], now, duration) {
      LiveAllFresh(s, now, duration);
    } else if Expired(s[|s| - 1], now, duration) {
      LiveAllExpired(s, now, duration);
    } else {
      PopExpiredIsLive(s, now, duration);
    }
  }

  /** The filtered queue is a suffix: what it drops is an expired prefix. */
  lemma {:induction false} LiveIsSuffix(s: seq<int>, now: int, duration: int)
    requires Sorted(s)
    ensures |Live(s, now, duration)| <= |s|
    ensures Live(s, now, duration) == s[|s| - |Live(s, now, duration)|..]
    ensures forall i :: 0 <= i < |s| - |Live(s, now, duration)| ==> Expired(s[i], now, duration)
    ensures forall i :: |s| - |Live(s, now, duration)| <= i < |s| ==> !Expired(s[i], now, duration)
  {
    if s == [] {
    } else if Expired(s[0], now, duration) {
      LiveIsSuffix(s[1..], now, duration);
      var n := |Live(s, now, duration)|;
      assert Live(s, now, duration) == Live(s[1..], now, duration);
      assert s[1..][|s| - 1 - n..] == s[|s| - n..];
      forall i | 0 <= i < |s|
        ensures i < |s| - n ==> Expired(s[i], now, duration)
        ensures |s| - n <= i ==> !Expired(s[i], now, duration)
      {
        if i > 0 {
          assert s[i] == s[1..][i - 1];
        }
      }
    } else {
      LiveAllFresh(s, now, duration);
    }
  }

  // ----- the limiter -----

  datatype Bucket = Bucket(lastActive: int, times: seq<int>)

  /** `lru` lists the keys from most to least recently active. */
  datatype Limiter = Limiter(buckets: map<string, Bucket>, lru: seq<string>, reservations: map<string, int>)

  /** The key map and the LRU list name the same keys, each once. */
  ghost predicate WellFormed(l: Limiter) {
    && Distinct(l.lru)
    && (forall k :: k in l.lru <==> k in l.buckets)
  }

  function Without<T(==)>(s: seq<T>, x: T): seq<T> {
    if s == [] then []
    else (if s[0] == x then [] else [s[0]]) + Without(s[1..], x)
  }

  lemma {:induction false} WithoutMembers<T>(s: seq<T>, x: T)
    ensures forall y :: y in Without(s, x) <==> y in s && y != x
  {
    if s != [] {
      WithoutMembers(s[1..], x);
      assert s == [s[0]] + s[1..];
    }
  }

  lemma {:induction false} WithoutAbsent<T>(s: seq<T>, x: T)
    requires x !in s
    ensures Without(s, x) == s
  {
    if s != [] {
      WithoutAbsent(s[1..], x);
    }
  }

  lemma {:induction false} WithoutAt<T>(s: seq<T>, i: nat)
    requires Distinct(s) && i < |s|
    ensures Without(s, s[i]) == s[..i] + s[i + 1..]
  {
    if i == 0 {
      assert s[0] !in s[1..];
      WithoutAbsent(s[1..], s[0]);
    } else {
      var rest := s[1..];
      assert rest[i - 1] == s[i] && s[0] != s[i];
      WithoutAt(rest, i - 1);
      assert Without(s, s[i]) == [s[0]] + Without(rest, s[i]);
      hide Without, Distinct;
      assert rest[..i - 1] == s[1..i] && rest[i..] == s[i + 1..];
      assert s[..i] == [s[0]] + s[1..i];
    }
  }

  /** Removal keeps the order of the rest: `p` is where the element was, or the end. */
  lemma WithoutIndices<T>(s: seq<T>, x: T) returns (p: nat)
    requires Distinct(s)
    ensures p <= |s| && |Without(s, x)| == if p < |s| then |s| - 1 else |s|
    ensures forall i :: 0 <= i < |Without(s, x)| ==> Without(s, x)[i] == s[if i < p then i else i + 1]
  {
    if x in s {
      p :| 0 <= p < |s| && s[p] == x;
      WithoutAt(s, p);
    } else {
      p := |s|;
      WithoutAbsent(s, x);
    }
  }

  lemma WithoutDistinct<T>(s: seq<T>, x: T)
    requires Distinct(s)
    ensures Distinct(Without(s, x))
  {
    var p := WithoutIndices(s, x);
  }

  function Times(l: Limiter, key: string): seq<int> {
    if key in l.buckets then l.buckets[key].times else []
  }

  function Reserved(l: Limiter, key: string): int {
    if key in l.reservations then l.reservations[key] else 0
  }

  /** `touchEntry`: creates the bucket on demand and makes the key most recently active. */
  function Touch(l: Limiter, key: string, now: int): Limiter {
    l.(buckets := l.buckets[key := Bucket(now, Times(l, key))],
       lru := [key] + Without(l.lru, key))
  }

  /** `touchEntry` on a known key, in its two steps: the time of its use, then its place in the list. */
  function SetActive(l: Limiter, key: string, now: int): Limiter
    requires key in l.buckets
  {
    l.(buckets := l.buckets[key := l.buckets[key].(lastActive := now)])
  }

  function ToFront(l: Limiter, key: string): Limiter {
    l.(lru := [key] + Without(l.lru, key))
  }

  function SetTimes(l: Limiter, key: string, times: seq<int>): Limiter
    requires key in l.buckets
  {
    l.(buckets := l.buckets[key := l.buckets[key].(times := times)])
  }

  function Pruned(l: Limiter, key: string, duration: int, now: int): Limiter {
    var t := Touch(l, key, now);
    SetTimes(t, key, RemoveExpired(t.buckets[key].times, Unix(now), duration))
  }

  function Append(l: Limiter, key: string, now: int): Limiter
    requires key in l.buckets
  {
    SetTimes(l, key, l.buckets[key].times + [Unix(now)])
  }

  predicate Allowed(l: Limiter, key: string, maxRequests: int, duration: int, now: int) {
    |RemoveExpired(Times(l, key), Unix(now), duration)| < maxRequests
  }

  function Request(l: Limiter, key: string, maxRequests: int, duration: int, now: int): Limiter {
    var p := Pruned(l, key, duration, now);
    if Allowed(l, key, maxRequests, duration, now) then Append(p, key, now) else p
  }

  predicate Admitted(l: Limiter, key: string, maxRequests: int, duration: int, now: int) {
    |RemoveExpired(Times(l, key), Unix(now), duration)| + Reserved(l, key) < maxRequests
  }

  function Reserve(l: Limiter, key: string, maxRequests: int, duration: int, now: int): Limiter {
    var p := Pruned(l, key, duration, now);
    if Admitted(l, key, maxRequests, duration, now)
    then p.(reservations := p.reservations[key := Reserved(l, key) + 1])
    else p
  }

  /** The body that `Complete` runs once per reservation. */
  function Release(l: Limiter, key: string, success: bool, now: int): Limiter {
    var left := Reserved(l, key) - 1;
    var r := l.(reservations := if left == 0 then l.reservations - {key} else l.reservations[key := left]);
    if success then Append(Touch(r, key, now), key, now) else r
  }

  /** The bucket of `key` after an admission check: the unexpired times, and the new one if recorded. */
  lemma RequestEffect(l: Limiter, key: string, maxRequests: int, duration: int, now: int)
    ensures var r := Request(l, key, maxRequests, duration, now);
      var left := RemoveExpired(Times(l, key), Unix(now), duration);
      && r.buckets == l.buckets[key := Bucket(now, if |left| < maxRequests then left + [Unix(now)] else left)]
      && r.reservations == l.reservations
  {
    hide RemoveExpired, Without;
  }

  lemma ReserveEffect(l: Limiter, key: string, maxRequests: int, duration: int, now: int)
    ensures var r := Reserve(l, key, maxRequests, duration, now);
      && r.buckets == l.buckets[key := Bucket(now, RemoveExpired(Times(l, key), Unix(now), duration))]
      && r.reservations == if Admitted(l, key, maxRequests, duration, now)
                           then l.reservations[key := Reserved(l, key) + 1] else l.reservations
  {
    hide RemoveExpired, Without;
  }

  lemma ReleaseEffect(l: Limiter, key: string, success: bool, now: int)
    ensures var r, left := Release(l, key, success, now), Reserved(l, key) - 1;
      && r.buckets == (if success then l.buckets[key := Bucket(now, Times(l, key) + [Unix(now)])] else l.buckets)
      && r.reservations == if left == 0 then l.reservations - {key} else l.reservations[key := left]
  {
    hide Without;
  }

  predicate Idle(b: Bucket, tick: int, expiration: int) {
    tick - b.lastActive >= expiration
  }

  /** The eviction loop: walks from the LRU tail and stops at the first active key. */
  function EvictWalk(l: Limiter, tick: int, expiration: int): Limiter
    requires WellFormed(l)
    decreases |l.lru|
  {
    if l.lru == [] then l
    else
      var key := l.lru[|l.lru| - 1];
      assert key in l.lru;
      if !Idle(l.buckets[key], tick, expiration) then l
      else
        EvictWalk(DropOldest(l), tick, expiration)
  }

  function DropOldest(l: Limiter): (r: Limiter)
    requires WellFormed(l) && l.lru != []
    ensures WellFormed(r)
    ensures r.buckets.Keys == l.buckets.Keys - {l.lru[|l.lru| - 1]}
    ensures forall k :: k in r.buckets ==> r.buckets[k] == l.buckets[k]
  {
    var n := |l.lru| - 1;
    var r := l.(buckets := l.buckets - {l.lru[n]}, lru := l.lru[..n]);
    assert forall k :: k in r.lru <==> k in l.lru && k != l.lru[n];
    r
  }

  function Evict(l: Limiter, tick: int, expiration: int): Limiter
    requires WellFormed(l)
  {
    if expiration <= 0 then l else EvictWalk(l, tick, expiration)
  }

  // ----- what every operation keeps -----

  lemma TouchWellFormed(l: Limiter, key: string, now: int)
    requires WellFormed(l)
    ensures WellFormed(Touch(l, key, now))
  {
    WithoutMembers(l.lru, key);
    WithoutDistinct(l.lru, key);
    var t := Touch(l, key, now);
    assert forall k :: k in t.lru <==> k == key || k in Without(l.lru, key);
  }

  lemma ReorderWellFormed(l: Limiter, key: string)
    requires WellFormed(l) && key in l.buckets
    ensures WellFormed(ToFront(l, key))
  {
    TouchWellFormed(l, key, 0);
  }

  /** No key was active after `clock`, and the LRU list is sorted by last activity. */
  ghost predicate Ordered(l: Limiter, clock: int)
    requires WellFormed(l)
  {
    && (forall i :: 0 <= i < |l.lru| ==> l.lru[i] in l.buckets && l.buckets[l.lru[i]].lastActive <= clock)
    && (forall i, j :: 0 <= i < j < |l.lru| ==> l.buckets[l.lru[j]].lastActive <= l.buckets[l.lru[i]].lastActive)
  }

  lemma TouchOrdered(l: Limiter, key: string, clock: int, now: int)
    requires WellFormed(l) && Ordered(l, clock) && clock <= now
    ensures WellFormed(Touch(l, key, now)) && Ordered(Touch(l, key, now), now)
  {
    TouchWellFormed(l, key, now);
    WithoutMembers(l.lru, key);
    var t, rest := Touch(l, key, now), Without(l.lru, key);
    var p := WithoutIndices(l.lru, key);
    hide Without, WellFormed;
    forall i | 0 <= i < |rest|
      ensures rest[i] in l.buckets && t.buckets[rest[i]] == l.buckets[rest[i]]
    {
      assert rest[i] in rest;
    }
    OrderedAfterTouch(l, t, rest, p, key, clock, now);
  }

  lemma OrderedAfterTouch(l: Limiter, t: Limiter, rest: seq<string>, p: nat, key: string, clock: int, now: int)
    requires WellFormed(l) && WellFormed(t) && Ordered(l, clock) && clock <= now
    requires t.lru == [key] + rest && key in t.buckets && t.buckets[key].lastActive == now
    requires p <= |l.lru| && |rest| <= |l.lru| && (p < |l.lru| ==> |rest| < |l.lru|)
    requires forall i :: 0 <= i < |rest| ==> rest[i] == l.lru[if i < p then i else i + 1]
    requires forall i :: 0 <= i < |rest| ==>
      rest[i] in l.buckets && rest[i] in t.buckets && t.buckets[rest[i]] == l.buckets[rest[i]]
    ensures Ordered(t, now)
  {
    hide WellFormed;
    forall i | 0 <= i < |t.lru|
      ensures t.lru[i] in t.buckets && t.buckets[t.lru[i]].lastActive <= now
    {
      assert t.lru[i] == if i == 0 then key else rest[i - 1];
    }
    forall i, j | 0 <= i < j < |t.lru|
      ensures t.buckets[t.lru[j]].lastActive <= t.buckets[t.lru[i]].lastActive
    {
      assert t.lru[j] == rest[j - 1];
      assert t.lru[i] == if i == 0 then key else rest[i - 1];
    }
  }

  /** Order depends only on the list and on when each key was last active. */
  lemma OrderedTransfers(a: Limiter, b: Limiter, clock: int)
    requires WellFormed(a) && WellFormed(b) && Ordered(a, clock)
    requires a.lru == b.lru
    requires forall k :: k in a.buckets && k in b.buckets ==> a.buckets[k].lastActive == b.buckets[k].lastActive
    ensures Ordered(b, clock)
  {
    assert forall i :: 0 <= i < |a.lru| ==> a.lru[i] in a.lru;
  }

  /** `r` is what a walk may leave of `l`: a front part of the LRU list, untouched buckets, only idle keys gone. */
  ghost predicate WalkedFrom(l: Limiter, r: Limiter, tick: int, expiration: int) {
    && r.reservations == l.reservations
    && r.lru <= l.lru
    && (forall k :: k in r.buckets ==> k in l.buckets && r.buckets[k] == l.buckets[k])
    && (forall k :: k in l.buckets && k !in r.buckets ==> Idle(l.buckets[k], tick, expiration))
  }

  lemma WalkedFurther(l: Limiter, m: Limiter, r: Limiter, tick: int, expiration: int)
    requires WalkedFrom(l, m, tick, expiration) && WalkedFrom(m, r, tick, expiration)
    ensures WalkedFrom(l, r, tick, expiration)
  {
  }

  lemma DropOldestWalked(l: Limiter, tick: int, expiration: int)
    requires WellFormed(l) && l.lru != [] && l.lru[|l.lru| - 1] in l.buckets
    requires Idle(l.buckets[l.lru[|l.lru| - 1]], tick, expiration)
    ensures WalkedFrom(l, DropOldest(l), tick, expiration)
  {
  }

  /** What the walk leaves, and that it stopped at an active key or an empty list. */
  lemma {:induction false} EvictWalkKeeps(l: Limiter, tick: int, expiration: int)
    requires WellFormed(l)
    ensures var r := EvictWalk(l, tick, expiration);
            && WellFormed(r) && WalkedFrom(l, r, tick, expiration)
            && (r.lru != [] ==> var k := r.lru[|r.lru| - 1]; k in r.buckets && !Idle(r.buckets[k], tick, expiration))
    decreases |l.lru|
  {
    if l.lru != [] {
      var key := l.lru[|l.lru| - 1];
      assert key in l.lru;
      if Idle(l.buckets[key], tick, expiration) {
        DropOldestWalked(l, tick, expiration);
        hide WalkedFrom;
        EvictWalkKeeps(DropOldest(l), tick, expiration);
        WalkedFurther(l, DropOldest(l), EvictWalk(DropOldest(l), tick, expiration), tick, expiration);
      }
    }
  }

  /** On an ordered LRU list, stopping early misses nothing: the keys evicted are exactly the idle ones. */
  lemma EvictExact(l: Limiter, clock: int, tick: int, expiration: int)
    requires WellFormed(l) && Ordered(l, clock) && expiration > 0
    ensures var r := Evict(l, tick, expiration);
            && (forall k :: k in r.buckets <==> k in l.buckets && !Idle(l.buckets[k], tick, expiration))
            && (forall k :: k in r.buckets ==> r.buckets[k] == l.buckets[k])
            && r.reservations == l.reservations
  {
    EvictWalkKeeps(l, tick, expiration);
    var r := EvictWalk(l, tick, expiration);
    hide EvictWalk, WellFormed, Ordered;
    forall k | k in r.buckets
      ensures !Idle(l.buckets[k], tick, expiration)
    {
      StoppedAtActive(l, r, clock, tick, expiration, k);
    }
  }

  /** Every key in front of the one the walk stopped at was active later still. */
  lemma StoppedAtActive(l: Limiter, r: Limiter, clock: int, tick: int, expiration: int, k: string)
    requires WellFormed(l) && Ordered(l, clock) && WellFormed(r) && r.lru <= l.lru && k in r.buckets && k in l.buckets
    requires r.lru != [] ==> var z := r.lru[|r.lru| - 1];
               z in l.buckets && !Idle(l.buckets[z], tick, expiration)
    ensures !Idle(l.buckets[k], tick, expiration)
  {
    hide Distinct;
    assert k in r.lru;
    var i :| 0 <= i < |r.lru| && r.lru[i] == k;
    var n := |r.lru| - 1;
    assert r.lru[i] == l.lru[i] && r.lru[n] == l.lru[n];
    assert i < n ==> l.buckets[l.lru[n]].lastActive <= l.buckets[l.lru[i]].lastActive;
  }

  lemma EvictOrdered(l: Limiter, clock: int, tick: int, expiration: int)
    requires WellFormed(l) && Ordered(l, clock)
    ensures WellFormed(Evict(l, tick, expiration)) && Ordered(Evict(l, tick, expiration), clock)
  {
    if expiration > 0 {
      EvictWalkKeeps(l, tick, expiration);
      hide EvictWalk, WellFormed, Ordered;
      FrontOrdered(l, EvictWalk(l, tick, expiration), clock);
    }
  }

  lemma FrontOrdered(l: Limiter, r: Limiter, clock: int)
    requires WellFormed(l) && Ordered(l, clock) && WellFormed(r) && r.lru <= l.lru
    requires forall k :: k in r.buckets ==> k in l.buckets && r.buckets[k] == l.buckets[k]
    ensures Ordered(r, clock)
  {
    hide Distinct;
    forall i | 0 <= i < |r.lru|
      ensures r.lru[i] == l.lru[i] && r.lru[i] in r.buckets
    {
      assert r.lru[i] in r.lru;
    }
    hide WellFormed;
  }
}
