/** common/rate-limit.go in its own form: the buckets with their linked queues, the key map, the LRU
    list and the reservation counters, updated in place. The clock is a parameter of every
    method that reads it; the mutex makes each method one atomic step. */
module RateLimiter {
  import opened OrderedSets
  import opened RateLimitSpec
  import opened RequestQueues

  /** A bucket; `element` is its node in the LRU list. */
  class Entry {
    var lastActive: int
    var element: Element?
    const requests: RequestQueue
    const key: string

    constructor (key: string, now: int)
      ensures this.key == key && lastActive == now && element == null
      ensures fresh(requests) && requests.Valid() && requests.owner == key
      ensures requests.Contents() == [] && requests.nodes == []
    {
      this.key := key;
      lastActive := now;
      element := null;
      requests := new RequestQueue(key);
    }
  }

  /** A `container/list` element; its value is set once, when it is pushed. */
  class Element {
    const value: Entry

    constructor (value: Entry)
      ensures this.value == value
    {
      this.value := value;
    }
  }

  function KeysOf(elements: seq<Element>): (keys: seq<string>)
    ensures |keys| == |elements|
  {
    seq(|elements|, i requires 0 <= i < |elements| => elements[i].value.key)
  }

  lemma KeysOfConcat(a: seq<Element>, b: seq<Element>)
    ensures KeysOf(a + b) == KeysOf(a) + KeysOf(b)
  {
  }

  lemma SpliceKeys(s: seq<Element>, i: nat)
    requires i < |s| && Distinct(KeysOf(s))
    ensures var r := [s[i]] + (s[..i] + s[i + 1..]);
            && (forall e :: e in r <==> e in s)
            && KeysOf(r) == [s[i].value.key] + Without(KeysOf(s), s[i].value.key)
  {
    assert s == s[..i] + [s[i]] + s[i + 1..];
    WithoutAt(KeysOf(s), i);
    KeysOfConcat(s[..i], s[i + 1..]);
    KeysOfConcat([s[i]], s[..i] + s[i + 1..]);
  }

  /** Every list element holds an entry that is stored under its key. */
  ghost predicate ElementsStored(lru: seq<Element>, store: map<string, Entry>) {
    forall e :: e in lru ==> e.value.key in store && store[e.value.key] == e.value
  }

  lemma PushStored(e: Element, lru: seq<Element>, store: map<string, Entry>)
    requires ElementsStored(lru, store) && e.value.key !in store
    ensures ElementsStored([e] + lru, store[e.value.key := e.value])
  {
  }

  lemma StoredKey(lru: seq<Element>, store: map<string, Entry>, e: Element)
    requires ElementsStored(lru, store) && e in lru
    ensures e.value.key in store && store[e.value.key] == e.value
  {
  }

  lemma SameStored(a: seq<Element>, b: seq<Element>, store: map<string, Entry>)
    requires ElementsStored(a, store) && forall e :: e in b ==> e in a
    ensures ElementsStored(b, store)
  {
  }

  /** An admitted request that is still running; `completed` is its `sync.Once`. */
  class Reservation {
    const limiter: InMemoryRateLimiter
    const key: string
    var completed: bool

    constructor (limiter: InMemoryRateLimiter, key: string)
      ensures this.limiter == limiter && this.key == key && !completed
    {
      this.limiter := limiter;
      this.key := key;
      completed := false;
    }
  }

  /** What ties map, list and counters to the limiter's value: the same keys, each in the list once. */
  ghost predicate Agrees(s: Limiter, store: map<string, Entry>, lru: seq<Element>, reservations: map<string, int>) {
    && WellFormed(s)
    && s.buckets.Keys == store.Keys
    && s.lru == KeysOf(lru)
    && s.reservations == reservations
    && ElementsStored(lru, store)
  }

  /** New bucket contents under the same keys, in the same order. */
  lemma AgreesAfter(s: Limiter, after: Limiter, store: map<string, Entry>, lru: seq<Element>,
                    reservations: map<string, int>)
    requires Agrees(s, store, lru, reservations)
    requires after.lru == s.lru && after.reservations == s.reservations && after.buckets.Keys == s.buckets.Keys
    ensures Agrees(after, store, lru, reservations)
  {
    assert forall k :: k in after.buckets <==> k in s.buckets;
  }

  lemma AgreesSpliced(s: Limiter, store: map<string, Entry>, lru: seq<Element>, reservations: map<string, int>, i: nat)
    requires Agrees(s, store, lru, reservations) && i < |lru|
    ensures var order := [lru[i]] + (lru[..i] + lru[i + 1..]);
      Agrees(ToFront(s, lru[i].value.key), store, order, reservations) && forall e :: e in lru ==> e in order
  {
    hide ElementsStored, KeysOf;
    var order := [lru[i]] + (lru[..i] + lru[i + 1..]);
    SpliceKeys(lru, i);
    SameStored(lru, order, store);
    assert lru[i] in lru;
    StoredKey(lru, store, lru[i]);
    ReorderWellFormed(s, lru[i].value.key);
  }

  lemma AgreesInserted(s: Limiter, store: map<string, Entry>, lru: seq<Element>, reservations: map<string, int>,
                       element: Element, now: int)
    requires Agrees(s, store, lru, reservations) && element.value.key !in store
    ensures var key := element.value.key;
      Agrees(Touch(s, key, now), store[key := element.value], [element] + lru, reservations)
  {
    var key := element.value.key;
    assert key !in s.buckets && key !in s.lru;
    hide ElementsStored;
    TouchWellFormed(s, key, now);
    hide WellFormed;
    WithoutAbsent(s.lru, key);
    KeysOfConcat([element], lru);
    assert KeysOf([element]) == [key];
    hide KeysOf, Without;
    PushStored(element, lru, store);
  }

  lemma DropStored(lru: seq<Element>, store: map<string, Entry>)
    requires lru != [] && ElementsStored(lru, store) && Distinct(KeysOf(lru))
    ensures var n, key := |lru| - 1, lru[|lru| - 1].value.key;
      && key in store && store[key] == lru[n].value && KeysOf(lru)[n] == key
      && ElementsStored(lru[..n], store - {key}) && KeysOf(lru[..n]) == KeysOf(lru)[..n]
  {
    var n, key := |lru| - 1, lru[|lru| - 1].value.key;
    assert lru[n] in lru;
    forall e | e in lru[..n]
      ensures e in lru && e.value.key != key
    {
      var i :| 0 <= i < n && lru[i] == e;
      assert KeysOf(lru)[i] != KeysOf(lru)[n];
    }
  }

  lemma AgreesDropped(s: Limiter, store: map<string, Entry>, lru: seq<Element>, reservations: map<string, int>)
    requires Agrees(s, store, lru, reservations) && lru != []
    ensures var n, key := |lru| - 1, lru[|lru| - 1].value.key;
      && key in store && store[key] == lru[n].value && WellFormed(s) && s.lru != [] && s.lru[|s.lru| - 1] == key
      && Agrees(DropOldest(s), store - {key}, lru[..n], reservations)
  {
    hide KeysOf, ElementsStored, Distinct;
    DropStored(lru, store);
  }

  class InMemoryRateLimiter {
    var store: map<string, Entry>
    var lru: seq<Element>  // front first
    var reservations: map<string, int>
    var expiration: int
    var ready: bool        // the maps have been made
    ghost var state: Limiter  // the limiter's value
    ghost var Repr: set<object>

    /** The queue of `k` lies in `Repr`, is well linked and holds these timestamps. */
    ghost predicate Queued(q: RequestQueue, k: string, times: seq<int>)
      reads this, Repr
    {
      && q in Repr && q.owner == k
      && (forall n :: n in q.nodes ==> n in Repr)
      && q.Valid() && q.Contents() == times
    }

    /** The entry of `k` is stored under its own key, its element is in the list and holds it,
        and it carries its bucket's value. */
    ghost predicate Linked(k: string)
      requires k in store
      reads this, Repr
    {
      var entry := store[k];
      && entry in Repr && k in state.buckets
      && entry.key == k
      && entry.element != null && entry.element.value == entry && entry.element in lru
      && entry.lastActive == state.buckets[k].lastActive
      && Queued(entry.requests, k, state.buckets[k].times)
    }

    /** Map and list are in bijection and agree with the limiter's value. */
    ghost predicate Valid()
      reads this, Repr
    {
      && ready
      && this in Repr
      && Agrees(state, store, lru, reservations)
      && (forall k :: k in store ==> Linked(k))
    }

    /** The zero value: nothing is made before `Init`. */
    constructor ()
      ensures !ready
    {
      store, lru, reservations, expiration, ready := map[], [], map[], 0, false;
    }

    /** Sets the limiter up once; repeated calls leave the first configuration unchanged. */
    method Init(expiration: int)
      modifies this
      ensures old(ready) ==> unchanged(this)
      ensures !old(ready) ==> Valid() && Repr == {this} && this.expiration == expiration
      ensures !old(ready) ==> state == Limiter(map[], [], map[])
    {
      if ready {
        return;
      }
      store, lru, reservations, ready := map[], [], map[], true;
      this.expiration := expiration;
      state := Limiter(map[], [], map[]);
      Repr := {this};
    }

    /** Every element of the list holds a stored entry that points back to it. */
    lemma ElementPointsBack(e: Element)
      requires Valid() && e in lru
      ensures e.value.key in store && store[e.value.key] == e.value && e.value.element == e
    {
      hide Queued;
      var k := e.value.key;
      assert Linked(k);
      var i :| 0 <= i < |lru| && lru[i] == e;
      var j :| 0 <= j < |lru| && lru[j] == store[k].element;
      assert state.lru[i] == k && state.lru[j] == k;
    }

    /** What validity says of the limiter's value and of one key. */
    lemma Facts(key: string, now: int)
      requires Valid()
      ensures ready && this in Repr && WellFormed(state) && WellFormed(Touch(state, key, now))
      ensures state.reservations == reservations && (key in state.buckets <==> key in store)
      ensures key in store ==>
        && var entry := store[key];
        && entry in Repr && entry.key == key && state.buckets[key].lastActive == entry.lastActive
        && Queued(entry.requests, key, state.buckets[key].times)
    {
      hide Queued, KeysOf, ElementsStored, Without;
      TouchWellFormed(state, key, now);
      assert key in store ==> Linked(key);
    }

    lemma QueueFacts(q: RequestQueue, key: string, times: seq<int>)
      requires Queued(q, key, times)
      ensures q in Repr && q.owner == key && q.Valid() && q.Contents() == times && q.length == |times|
      ensures forall n :: n in q.nodes ==> n in Repr
    {
    }

    /** An entry whose queue nothing touched stays linked. */
    twostate lemma StillLinked(k: string)
      requires k in old(store) && k in store && old(Linked(k)) && store[k] == old(store[k]) && old(Repr) <= Repr
      requires k in state.buckets && state.buckets[k].times == old(state).buckets[k].times
      requires store[k].element == old(store[k].element) && store[k].element in lru
      requires store[k].lastActive == state.buckets[k].lastActive && store[k].requests.Kept()
      ensures Linked(k)
    {
      hide RequestQueue.Valid, RequestQueue.Contents;
      store[k].requests.Untouched();
    }

    /** `PushFront` of a new entry, and its entry in the map. */
    method Insert(entry: Entry, element: Element, ghost after: Limiter)
      requires Valid() && entry.key !in store
      requires entry.element == element && element.value == entry
      requires entry.requests.owner == entry.key && entry.requests.Valid()
      requires entry.requests.nodes == [] && entry.requests.Contents() == []
      requires Agrees(after, store[entry.key := entry], [element] + lru, reservations)
      requires after.buckets == state.buckets[entry.key := Bucket(entry.lastActive, [])]
      modifies `store, `lru, `state, `Repr
      ensures Valid() && Repr == old(Repr) + {entry, entry.requests}
      ensures store == old(store)[entry.key := entry] && state == after
    {
      hide Agrees, RequestQueue.Valid, RequestQueue.Contents, Queued;
      state, lru, store := after, [element] + lru, store[entry.key := entry];
      Repr := Repr + {entry, entry.requests};
      NowQueued(entry.requests, entry.key, []);
      forall k | k in store
        ensures Linked(k)
      {
        if k != entry.key {
          assert old(Linked(k));
          StillLinked(k);
        }
      }
    }

    lemma NowQueued(q: RequestQueue, key: string, times: seq<int>)
      requires q in Repr && q.owner == key && (forall n :: n in q.nodes ==> n in Repr)
      requires q.Valid() && q.Contents() == times
      ensures Queued(q, key, times)
    {
    }

    /** The clock reading of the key's latest use. */
    method SetLastActive(entry: Entry, now: int)
      requires Valid() && entry.key in store && store[entry.key] == entry && entry.key in state.buckets
      modifies `state, entry`lastActive
      ensures Valid()
      ensures state == SetActive(old(state), entry.key, now)
    {
      hide Agrees, RequestQueue.Valid, RequestQueue.Contents, Queued;
      ghost var after := SetActive(state, entry.key, now);
      AgreesAfter(state, after, store, lru, reservations);
      entry.lastActive := now;
      state := after;
      forall k | k in store
        ensures Linked(k)
      {
        assert old(Linked(k));
        StillLinked(k);
      }
    }

    /** The list with this entry's element spliced to the front. */
    method Spliced(entry: Entry) returns (r: seq<Element>)
      requires Valid() && entry.key in store && store[entry.key] == entry
      ensures forall e :: e in lru ==> e in r
      ensures Agrees(ToFront(state, entry.key), store, r, reservations)
    {
      hide Agrees, Queued, Without;
      assert Linked(entry.key);
      var i :| 0 <= i < |lru| && lru[i] == entry.element;
      AgreesSpliced(state, store, lru, reservations, i);
      r := [lru[i]] + (lru[..i] + lru[i + 1..]);
    }

    method MoveToFront(entry: Entry)
      requires Valid() && entry.key in store && store[entry.key] == entry
      modifies `lru, `state
      ensures Valid() && state == ToFront(old(state), entry.key)
    {
      hide Agrees, RequestQueue.Valid, RequestQueue.Contents, Queued;
      var order := Spliced(entry);
      lru, state := order, ToFront(state, entry.key);
      forall k | k in store
        ensures Linked(k)
      {
        assert old(Linked(k));
        StillLinked(k);
      }
    }

    method TouchEntry(key: string, now: int) returns (entry: Entry)
      requires Valid()
      modifies Repr
      ensures Valid() && fresh(Repr - old(Repr)) && expiration == old(expiration)
      ensures key in store && entry == store[key] && entry.key == key
      ensures state == Touch(old(state), key, now)
    {
      hide InMemoryRateLimiter.Valid, Agrees, Queued, RequestQueue.Valid, RequestQueue.Contents, WellFormed, Without;
      Facts(key, now);
      if key !in store {
        entry := new Entry(key, now);
        var element := new Element(entry);
        entry.element := element;
        CanInsert(element, now);
        Insert(entry, element, Touch(state, key, now));
      } else {
        entry := store[key];
        SetLastActive(entry, now);
        MoveToFront(entry);
      }
    }

    lemma CanInsert(element: Element, now: int)
      requires Valid() && element.value.key !in store
      ensures var key := element.value.key;
        Agrees(Touch(state, key, now), store[key := element.value], [element] + lru, reservations)
    {
      hide Queued;
      AgreesInserted(state, store, lru, reservations, element, now);
    }

    /** Only the queue of `key` has changed, and the limiter's value with it. */
    twostate lemma Requeued(key: string)
      requires old(Valid()) && ready && unchanged(`store, `lru, `reservations) && old(Repr) <= Repr
      requires key in store && key in old(state).buckets && key in state.buckets
      requires state == SetTimes(old(state), key, state.buckets[key].times)
      requires forall k :: k in store ==> store[k].lastActive == old(store[k].lastActive)
      requires forall k :: k in store ==> store[k].element == old(store[k].element)
      requires forall k :: k in store && k != key ==> store[k].requests.Kept()
      requires Queued(store[key].requests, key, state.buckets[key].times)
      ensures Valid()
    {
      hide Agrees, RequestQueue.Valid, RequestQueue.Contents;
      AgreesAfter(old(state), state, store, lru, reservations);
      forall k | k in store
        ensures Linked(k)
      {
        assert old(Linked(k));
        if k != key {
          StillLinked(k);
        }
      }
    }

    /** No two buckets share a queue or a node. */
    lemma QueuesApart(key: string)
      requires Valid() && key in store
      ensures forall k :: k in store && k != key ==> store[k].requests.Apart(store[key].requests)
    {
      hide Agrees, RequestQueue.Contents;
      assert Linked(key);
      forall k | k in store && k != key
        ensures store[k].requests.Apart(store[key].requests)
      {
        assert Linked(k);
      }
    }

    /** `removeExpired` on the queue of a bucket. */
    method Prune(entry: Entry, now: int, duration: int)
      requires Valid() && entry.key in store && store[entry.key] == entry && entry.key in state.buckets
      modifies `state, entry.requests, entry.requests.nodes`next
      ensures Valid()
      ensures state == SetTimes(old(state), entry.key,
                                RemoveExpired(old(state).buckets[entry.key].times, now, duration))
    {
      hide InMemoryRateLimiter.Valid, Agrees, Queued, RequestQueue.Valid, RequestQueue.Contents,
        RateLimitSpec.RemoveExpired;
      Facts(entry.key, 0);
      QueueFacts(entry.requests, entry.key, state.buckets[entry.key].times);
      QueuesApart(entry.key);
      ghost var times := RemoveExpired(state.buckets[entry.key].times, now, duration);
      entry.requests.RemoveExpired(now, duration);
      assert entry.requests.Contents() == times;
      state := SetTimes(state, entry.key, times);
      NowQueued(entry.requests, entry.key, times);
      forall k | k in store && k != entry.key
        ensures store[k].requests.Kept()
      {
        assert old(store[k].requests.Apart(entry.requests));
      }
      Requeued(entry.key);
    }

    /** `append` on the queue of a bucket. */
    method Record(entry: Entry, now: int)
      requires Valid() && entry.key in store && store[entry.key] == entry && entry.key in state.buckets
      modifies `state, `Repr, entry.requests, entry.requests.nodes`next
      ensures Valid() && fresh(Repr - old(Repr)) && old(Repr) <= Repr
      ensures state == SetTimes(old(state), entry.key, old(state).buckets[entry.key].times + [now])
    {
      hide InMemoryRateLimiter.Valid, Agrees, RequestQueue.Valid, RequestQueue.Contents;
      Facts(entry.key, 0);
      QueueFacts(entry.requests, entry.key, state.buckets[entry.key].times);
      QueuesApart(entry.key);
      entry.requests.Append(now);
      ghost var times := state.buckets[entry.key].times + [now];
      state := SetTimes(state, entry.key, times);
      Repr := Repr + set n | n in entry.requests.nodes;
      NowQueued(entry.requests, entry.key, times);
      forall k | k in store && k != entry.key
        ensures store[k].requests.Kept()
      {
        assert old(store[k].requests.Apart(entry.requests));
      }
      Requeued(entry.key);
    }

    /** Admission check and record in one step. */
    method Request(key: string, maxRequests: int, duration: int, now: int) returns (allowed: bool)
      requires Valid()
      modifies Repr
      ensures Valid() && fresh(Repr - old(Repr)) && expiration == old(expiration)
      ensures allowed == Allowed(old(state), key, maxRequests, duration, now)
      ensures state == RateLimitSpec.Request(old(state), key, maxRequests, duration, now)
    {
      hide InMemoryRateLimiter.Valid, Queued, WellFormed, RequestQueue.Valid, RateLimitSpec.RemoveExpired, Without;
      var entry := TouchEntry(key, now);
      BucketFacts(key);
      Prune(entry, Unix(now), duration);
      BucketFacts(key);
      allowed := entry.requests.length < maxRequests;
      if allowed {
        Record(entry, Unix(now));
      }
    }

    /** The bucket of a stored key and its queue, as the other methods may touch them. */
    lemma BucketFacts(key: string)
      requires Valid() && key in store
      ensures this in Repr && store[key] in Repr && store[key].key == key && key in state.buckets
      ensures store[key].requests in Repr && store[key].requests.length == |state.buckets[key].times|
      ensures forall n :: n in store[key].requests.nodes ==> n in Repr
      ensures state.reservations == reservations
    {
      hide WellFormed, KeysOf, ElementsStored;
      assert Linked(key);
    }

    /** Admission that counts running requests; null when the key is saturated. */
    method Reserve(key: string, maxRequests: int, duration: int, now: int) returns (r: Reservation?)
      requires Valid()
      modifies Repr
      ensures Valid() && fresh(Repr - old(Repr)) && expiration == old(expiration)
      ensures r != null <==> Admitted(old(state), key, maxRequests, duration, now)
      ensures r != null ==> fresh(r) && r.limiter == this && r.key == key && !r.completed && r !in Repr
      ensures state == RateLimitSpec.Reserve(old(state), key, maxRequests, duration, now)
    {
      hide InMemoryRateLimiter.Valid, Queued, WellFormed, RequestQueue.Valid, RateLimitSpec.RemoveExpired, Without;
      var entry := TouchEntry(key, now);
      BucketFacts(key);
      Prune(entry, Unix(now), duration);
      BucketFacts(key);
      var held := if key in reservations then reservations[key] else 0;
      if entry.requests.length + held >= maxRequests {
        return null;
      }
      SetReservations(reservations[key := held + 1]);
      r := new Reservation(this, key);
    }

    method SetReservations(m: map<string, int>)
      requires Valid()
      modifies `reservations, `state
      ensures Valid() && reservations == m && state == old(state).(reservations := m)
    {
      hide RequestQueue.Valid, RequestQueue.Contents, Queued;
      reservations := m;
      state := state.(reservations := m);
      forall k | k in store
        ensures Linked(k)
      {
        assert old(Linked(k));
        StillLinked(k);
      }
    }

    /** The body that `Complete` runs once. */
    method Release(key: string, success: bool, now: int)
      requires Valid()
      modifies Repr
      ensures Valid() && fresh(Repr - old(Repr)) && expiration == old(expiration)
      ensures state == RateLimitSpec.Release(old(state), key, success, now)
    {
      hide InMemoryRateLimiter.Valid, Queued, WellFormed, RequestQueue.Valid, Without;
      Facts(key, now);
      var left := (if key in reservations then reservations[key] else 0) - 1;
      SetReservations(if left == 0 then reservations - {key} else reservations[key := left]);
      if success {
        var entry := TouchEntry(key, now);
        BucketFacts(key);
        Record(entry, Unix(now));
      }
    }

    /** Dropping the back element drops exactly the oldest key. */
    lemma BackFacts(oldest: Element)
      requires Valid() && lru != [] && oldest == lru[|lru| - 1]
      ensures oldest.value.key in store && store[oldest.value.key] == oldest.value
      ensures WellFormed(state) && state.lru != [] && WellFormed(DropOldest(state))
      ensures state.lru[|state.lru| - 1] == oldest.value.key && oldest.value.key in state.buckets
      ensures state.buckets[oldest.value.key].lastActive == oldest.value.lastActive
      ensures Agrees(DropOldest(state), store - {oldest.value.key}, lru[..|lru| - 1], reservations)
      ensures forall k :: k in store && k != oldest.value.key ==> store[k].element in lru[..|lru| - 1]
    {
      hide Agrees, WellFormed, DropOldest, Queued;
      AgreesDropped(state, store, lru, reservations);
      var n, key := |lru| - 1, oldest.value.key;
      assert Linked(key);
      forall k | k in store && k != key
        ensures store[k].element in lru[..n]
      {
        assert Linked(k);
        assert lru == lru[..n] + [oldest];
      }
    }

    /** Takes `entry` out of the map, leaves `rest` of the list and clears its queue. */
    method Unlink(entry: Entry, rest: seq<Element>, ghost after: Limiter)
      requires Valid() && entry.key in store && store[entry.key] == entry
      requires Agrees(after, store - {entry.key}, rest, reservations)
      requires forall k :: k in store && k != entry.key ==> store[k].element in rest
      requires after.buckets == state.buckets - {entry.key}
      requires entry.requests.Valid()
      modifies `store, `lru, `state, entry`element, entry.requests
      ensures Valid() && state == after && lru == rest
    {
      hide Agrees, RequestQueue.Valid, RequestQueue.Contents, Queued;
      QueuesApart(entry.key);
      store, lru, state := store - {entry.key}, rest, after;
      entry.element := null;
      entry.requests.Clear();
      forall k | k in store
        ensures Linked(k)
      {
        assert old(Linked(k));
        assert old(store[k].requests.Apart(entry.requests));
        StillLinked(k);
      }
    }

    method RemoveBack(oldest: Element)
      requires Valid() && lru != [] && oldest == lru[|lru| - 1]
      modifies `store, `lru, `state, oldest.value`element, oldest.value.requests
      ensures Valid() && WellFormed(old(state)) && old(state).lru != [] && state == DropOldest(old(state))
      ensures |lru| == |old(lru)| - 1
    {
      hide InMemoryRateLimiter.Valid, Agrees, Queued, WellFormed, KeysOf, RequestQueue.Valid;
      BackFacts(oldest);
      Facts(oldest.value.key, 0);
      QueueFacts(oldest.value.requests, oldest.value.key, state.buckets[oldest.value.key].times);
      Unlink(oldest.value, lru[..|lru| - 1], DropOldest(state));
    }

    /** The sweep: walks from the back of the list and stops at the first active key. */
    method DeleteExpiredEntries(tick: int)
      requires Valid()
      modifies Repr
      ensures Valid() && Repr == old(Repr) && expiration == old(expiration)
      ensures WellFormed(old(state)) && state == Evict(old(state), tick, expiration)
    {
      hide InMemoryRateLimiter.Valid, Agrees, Queued, WellFormed, DropOldest, KeysOf;
      Facts([], 0);
      if expiration <= 0 {
        return;
      }
      while true
        invariant Valid() && Repr == old(Repr) && this in Repr && expiration == old(expiration)
        invariant WellFormed(state) && WellFormed(old(state))
        invariant EvictWalk(state, tick, expiration) == EvictWalk(old(state), tick, expiration)
        decreases |lru|
      {
        ListLength();
        if |lru| == 0 {
          return;
        }
        var oldest := lru[|lru| - 1];
        BackFacts(oldest);
        BucketFacts(oldest.value.key);
        if tick - oldest.value.lastActive < expiration {
          return;
        }
        RemoveBack(oldest);
      }
    }

    lemma ListLength()
      requires Valid()
      ensures |state.lru| == |lru|
    {
    }
  }

  /** `Complete` on a reservation that may be null: the first call releases, later calls do nothing. */
  method Complete(r: Reservation?, success: bool, now: int)
    requires r != null ==> r.limiter.Valid() && r !in r.limiter.Repr
    modifies r, if r != null then r.limiter.Repr else {}
    ensures r != null ==>
      && r.completed && r.limiter.Valid() && fresh(r.limiter.Repr - old(r.limiter.Repr))
      && r.limiter.expiration == old(r.limiter.expiration)
      && r.limiter.state == if old(r.completed) then old(r.limiter.state)
                            else RateLimitSpec.Release(old(r.limiter.state), r.key, success, now)
  {
    if r == null || r.completed {
      return;
    }
    r.completed := true;
    r.limiter.Release(r.key, success, now);
  }
}
