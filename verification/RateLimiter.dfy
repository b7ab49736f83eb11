/**
 The limiter object: buckets on the heap, a recency list of the same buckets, in-flight counters.

 Each method performs exactly the step of RateLimitSpec that carries its name; the limiter's mutex
 makes a method body one atomic step.
 */
module RateLimiter {
  import opened Basics
  import opened RateLimitSpec
  import RateLimitQueue

  /** A key's bucket. */
  class Entry {
    const key: Key
    const requests: RateLimitQueue.Queue
    var lastActive: int

    constructor (key: Key, lastActive: int)
      ensures this.key == key == requests.key && this.lastActive == lastActive
      ensures fresh(requests) && requests.Valid() && requests.times == [] && requests.nodes == {}
    {
      this.key := key;
      this.lastActive := lastActive;
      requests := new RateLimitQueue.Queue(key);
    }
  }

  function Keys(entries: seq<Entry>): seq<Key> {
    if entries == [] then [] else [entries[0].key] + Keys(entries[1..])
  }

  /** The list without one element, as MoveToFront takes it out. */
  function Unlink(entries: seq<Entry>, e: Entry): seq<Entry> {
    if entries == [] then []
    else (if entries[0] == e then [] else [entries[0]]) + Unlink(entries[1..], e)
  }

  lemma {:induction false} UnlinkKeys(entries: seq<Entry>, e: Entry)
    requires forall x :: x in entries && x.key == e.key ==> x == e
    ensures Keys(Unlink(entries, e)) == Without(Keys(entries), e.key)
    ensures forall x :: x in Unlink(entries, e) ==> x in entries && x != e
  {
    if entries != [] {
      UnlinkKeys(entries[1..], e);
      assert entries[0] in entries;
      var rest := Unlink(entries[1..], e);
      assert ([entries[0]] + rest)[1..] == rest;
      assert Keys(entries)[1..] == Keys(entries[1..]);
      assert [] + rest == rest;
    }
  }

  ghost predicate Distinct(entries: seq<Entry>) {
    forall i, j :: 0 <= i < j < |entries| ==> entries[i] != entries[j]
  }

  lemma {:induction false} UnlinkDistinct(entries: seq<Entry>, e: Entry)
    requires Distinct(entries)
    ensures Distinct(Unlink(entries, e))
    ensures forall x :: x in Unlink(entries, e) ==> x in entries
  {
    if entries != [] {
      UnlinkDistinct(entries[1..], e);
      var rest := Unlink(entries[1..], e);
      assert entries[0] !in entries[1..];
      assert Distinct([entries[0]] + rest);
    }
  }

  /** The recency list holds stored entries, each at most once. */
  ghost predicate Listed(lru: seq<Entry>, store: map<Key, Entry>) {
    Distinct(lru) && forall e :: e in lru ==> e.key in store && store[e.key] == e
  }

  lemma {:induction false} KeysAt(entries: seq<Entry>)
    ensures |Keys(entries)| == |entries|
    ensures forall i :: 0 <= i < |entries| ==> Keys(entries)[i] == entries[i].key
  {
    if entries != [] { KeysAt(entries[1..]); }
  }

  lemma ListedDropLast(lru: seq<Entry>, store: map<Key, Entry>)
    requires Listed(lru, store) && lru != []
    ensures var last := |lru| - 1;
            |Keys(lru)| == |lru| && lru[last].key == Keys(lru)[last] && Keys(lru[..last]) == Keys(lru)[..last] &&
            lru[last].key in store && store[lru[last].key] == lru[last] &&
            Listed(lru[..last], store - {lru[last].key})
  {
    var last := |lru| - 1;
    KeysAt(lru);
    KeysAt(lru[..last]);
    assert lru[last] in lru;
    assert forall e :: e in lru[..last] ==> e in lru && e != lru[last];
  }

  lemma ListedNew(lru: seq<Entry>, store: map<Key, Entry>, e: Entry)
    requires Listed(lru, store) && e.key !in store
    ensures Listed([e] + lru, store[e.key := e]) && Keys([e] + lru) == [e.key] + Keys(lru)
  {}

  lemma ListedFront(lru: seq<Entry>, store: map<Key, Entry>, e: Entry)
    requires Listed(lru, store) && e.key in store && store[e.key] == e
    ensures Listed([e] + Unlink(lru, e), store)
    ensures Keys([e] + Unlink(lru, e)) == [e.key] + Without(Keys(lru), e.key)
  {
    UnlinkKeys(lru, e);
    UnlinkDistinct(lru, e);
    assert ([e] + Unlink(lru, e))[1..] == Unlink(lru, e);
  }

  lemma PutKeepsReservations(l: State, key: Key, now: int, ts: seq<int>)
    ensures PutBucket(l, key, now, ts).reservations == l.reservations
  {}

  lemma PutThenSet(s: State, key: Key, now: int, a: seq<int>, b: seq<int>)
    ensures SetTimes(PutBucket(s, key, now, a), key, b) == PutBucket(s, key, now, b)
  {}

  lemma EvictUnfolds(s: State, stamp: int, expiration: int)
    ensures s.lru == [] ==> EvictTail(s, stamp, expiration) == s
    ensures s.lru != [] && s.lru[|s.lru| - 1] in s.store ==>
              EvictTail(s, stamp, expiration) ==
              if stamp - s.store[s.lru[|s.lru| - 1]].lastActive < expiration then s
              else EvictTail(DropOldest(s), stamp, expiration)
  {}

  class InMemoryRateLimiter {
    var store: map<Key, Entry>
    var lru: seq<Entry>
    var reservations: map<Key, int>
    const expirationDuration: int
    ghost var buckets: map<Key, Bucket>

    /** The value-level state this object stands for. */
    ghost function View(): State
      reads this
    {
      State(buckets, Keys(lru), reservations)
    }

    ghost predicate Holds(e: Entry, k: Key, b: Bucket)
      reads e, e.requests, e.requests.nodes
    {
      e.key == k == e.requests.key && e.requests.Valid() && b == Bucket(e.lastActive, e.requests.times)
    }

    ghost predicate Valid()
      reads *
    {
      && buckets.Keys == store.Keys
      && (forall k :: k in store ==> Holds(store[k], k, buckets[k]))
      && Listed(lru, store)
    }

    constructor (expirationDuration: int)
      ensures Valid() && View() == EMPTY && this.expirationDuration == expirationDuration
    {
      store, lru, reservations := map[], [], map[];
      this.expirationDuration := expirationDuration;
      buckets := map[];
    }

    /** Returns the key's bucket, creating it on demand, and makes it the most recent one. */
    method TouchEntry(key: Key, now: int) returns (entry: Entry)
      requires Valid()
      modifies this, (if key in store then {store[key]} else {})
      ensures Valid() && View() == Touch(old(View()), key, now) && key in store && entry == store[key]
      ensures if key in old(store) then entry == old(store)[key] && unchanged(entry.requests)
              else fresh(entry) && fresh(entry.requests) && entry.requests.nodes == {}
    {
      if key !in store {
        entry := AddEntry(key, now);
      } else {
        entry := store[key];
        Refresh(entry, now);
      }
    }

    method AddEntry(key: Key, now: int) returns (entry: Entry)
      requires Valid() && key !in store
      modifies this
      ensures Valid() && View() == Touch(old(View()), key, now) && key in store && entry == store[key]
      ensures fresh(entry) && fresh(entry.requests) && entry.requests.nodes == {}
    {
      hide RateLimitQueue.Queue.Valid, Listed, Keys;
      entry := new Entry(key, now);
      forall k | k in store ensures Holds(store[k], k, buckets[k]) {
        assert old(Holds(store[k], k, buckets[k]));
      }
      ListedNew(lru, store, entry);
      lru := [entry] + lru;
      store := store[key := entry];
      buckets := buckets[key := Bucket(now, [])];
    }

    method Refresh(entry: Entry, now: int)
      requires Valid() && entry.key in store && store[entry.key] == entry
      modifies entry, this`lru, this`buckets
      ensures Valid() && View() == Touch(old(View()), entry.key, now)
    {
      hide RateLimitQueue.Queue.Valid, Listed, Keys, Unlink, Without;
      ghost var key := entry.key;
      entry.lastActive := now;
      forall k | k in store && k != key ensures Holds(store[k], k, buckets[k]) {
        assert old(Holds(store[k], k, buckets[k]));
      }
      ListedFront(lru, store, entry);
      lru := [entry] + Unlink(lru, entry);
      buckets := buckets[key := buckets[key].(lastActive := now)];
      assert Holds(entry, key, buckets[key]) by { assert old(Holds(entry, key, buckets[key])); }
      hide Holds;
    }

    /** No node of a stored queue is in the queue of another key. */
    lemma QueuesApart(key: Key)
      requires Valid() && key in store
      ensures forall k, n :: k in store && k != key && n in store[k].requests.nodes ==> n !in store[key].requests.nodes
    {}

    ghost predicate OthersHold(key: Key)
      reads *
    {
      buckets.Keys == store.Keys && forall k :: k in store && k != key ==> Holds(store[k], k, buckets[k])
    }

    method RemoveExpiredQueue(entry: Entry, second: int, duration: int)
      requires Valid() && entry.key in store && store[entry.key] == entry
      modifies entry.requests, entry.requests.nodes
      ensures OthersHold(entry.key)
      ensures Holds(entry, entry.key, buckets[entry.key].(times := Prune(buckets[entry.key].times, second, duration)))
      ensures entry.requests.nodes <= old(entry.requests.nodes)
    {
      hide RateLimitQueue.Queue.Valid, Listed, Keys, Prune;
      QueuesApart(entry.key);
      ghost var key := entry.key;
      entry.requests.RemoveExpired(second, duration);
      forall k | k in store && k != key ensures Holds(store[k], k, buckets[k]) {
        assert old(Holds(store[k], k, buckets[k]));
      }
      assert old(Holds(entry, key, buckets[key]));
    }

    /** removeExpired on a stored key's queue. */
    method RemoveExpired(entry: Entry, second: int, duration: int)
      requires Valid() && entry.key in store && store[entry.key] == entry
      modifies this`buckets, entry.requests, entry.requests.nodes
      ensures var kept := Prune(old(buckets)[entry.key].times, second, duration);
              Valid() && View() == SetTimes(old(View()), entry.key, kept)
      ensures entry.requests.nodes <= old(entry.requests.nodes)
    {
      hide Holds, Listed, Keys, Prune;
      RemoveExpiredQueue(entry, second, duration);
      ghost var kept := Prune(buckets[entry.key].times, second, duration);
      buckets := buckets[entry.key := buckets[entry.key].(times := kept)];
    }

    method AppendQueue(entry: Entry, second: int)
      requires Valid() && entry.key in store && store[entry.key] == entry
      modifies entry.requests, entry.requests.nodes
      ensures OthersHold(entry.key)
      ensures Holds(entry, entry.key, buckets[entry.key].(times := buckets[entry.key].times + [second]))
    {
      hide RateLimitQueue.Queue.Valid, Listed, Keys, Prune;
      QueuesApart(entry.key);
      ghost var key := entry.key;
      entry.requests.Append(second);
      forall k | k in store && k != key ensures Holds(store[k], k, buckets[k]) {
        assert old(Holds(store[k], k, buckets[k]));
      }
      assert old(Holds(entry, key, buckets[key]));
    }

    /** append on a stored key's queue. */
    method Append(entry: Entry, second: int)
      requires Valid() && entry.key in store && store[entry.key] == entry
      modifies this`buckets, entry.requests, entry.requests.nodes
      ensures Valid() && View() == SetTimes(old(View()), entry.key, old(buckets)[entry.key].times + [second])
    {
      hide Holds, Listed, Keys, Prune;
      AppendQueue(entry, second);
      buckets := buckets[entry.key := buckets[entry.key].(times := old(buckets)[entry.key].times + [second])];
    }

    /** The common start of Request and Reserve: touch the key, then prune its queue. */
    method TouchAndPrune(key: Key, duration: int, now: int) returns (entry: Entry)
      requires Valid()
      modifies this, Footprint(key)
      ensures Valid() && key in store && entry == store[key]
      ensures if key in old(store)
              then entry == old(store)[key] && entry.requests.nodes <= old(store[key].requests.nodes)
              else fresh(entry) && fresh(entry.requests) && fresh(entry.requests.nodes)
      ensures var kept := Prune(Times(old(View()), key), Unix(now), duration);
              View() == PutBucket(old(View()), key, now, kept) && entry.requests.length == |kept|
    {
      hide RateLimitQueue.Queue.Valid, Listed, Keys, Prune;
      entry := TouchEntry(key, now);
      RemoveExpired(entry, Unix(now), duration);
      ghost var ts := Times(old(View()), key);
      PutThenSet(old(View()), key, now, ts, Prune(ts, Unix(now), duration));
      LengthIsCount(entry);
    }

    method Request(key: Key, maxRequestNum: int, duration: int, now: int) returns (allowed: bool)
      requires Valid()
      modifies this, Footprint(key)
      ensures Valid() && (View(), allowed) == RequestStep(old(View()), key, maxRequestNum, duration, now)
    {
      hide RateLimitQueue.Queue.Valid, Listed, Keys, Prune;
      var entry := TouchAndPrune(key, duration, now);
      ghost var kept := Prune(Times(old(View()), key), Unix(now), duration);
      PutThenSet(old(View()), key, now, kept, kept + [Unix(now)]);
      allowed := entry.requests.length < maxRequestNum;
      if allowed {
        Append(entry, Unix(now));
      }
    }

    /** The body of Complete, under the mutex. */
    method Settle(key: Key, success: bool, now: int)
      requires Valid()
      modifies this, Footprint(key)
      ensures Valid() && View() == CompleteStep(old(View()), key, success, now)
    {
      hide RateLimitQueue.Queue.Valid, Listed, Keys;
      reservations := reservations[key := Get(reservations, key) - 1];
      if reservations[key] == 0 {
        reservations := reservations - {key};
      }
      ghost var released := View();
      assert reservations == Dec(old(reservations), key);
      if success {
        var entry := TouchEntry(key, now);
        Append(entry, Unix(now));
        ghost var ts := Times(released, key);
        PutThenSet(released, key, now, ts, ts + [Unix(now)]);
      }
    }

    /** What a call for key may change besides the limiter itself. */
    ghost function Footprint(key: Key): set<object>
      reads this, if key in store then {store[key], store[key].requests} else {}
    {
      if key in store then {store[key], store[key].requests} + store[key].requests.nodes else {}
    }

    lemma LengthIsCount(e: Entry)
      requires Valid() && e.key in store && store[e.key] == e
      ensures e.requests.length == |buckets[e.key].times|
    {}

    /** Returns null when the key is saturated. */
    method Reserve(key: Key, maxRequests: int, duration: int, now: int) returns (r: Reservation?)
      requires Valid()
      modifies this, Footprint(key)
      ensures Valid() && (View(), r != null) == ReserveStep(old(View()), key, maxRequests, duration, now)
      ensures r != null ==> fresh(r) && r.limiter == this && r.key == key && !r.done
    {
      hide Holds, Listed, Keys, Prune, PutBucket, Times;
      var entry := TouchAndPrune(key, duration, now);
      PutKeepsReservations(old(View()), key, now, Prune(Times(old(View()), key), Unix(now), duration));
      if entry.requests.length + Get(reservations, key) >= maxRequests {
        return null;
      }
      reservations := reservations[key := Get(reservations, key) + 1];
      r := new Reservation(this, key);
    }

    /** Walks only the oldest entries and stops at the first active key. */
    method DeleteExpiredEntries(stamp: int)
      requires Valid()
      modifies this, set k | k in store :: store[k].requests
      ensures Valid() && View() == EvictStep(old(View()), stamp, expirationDuration)
    {
      hide RateLimitQueue.Queue.Valid, Listed;
      hide EvictTail, DropOldest;
      if expirationDuration <= 0 {
        return;
      }
      while lru != []
        invariant Valid() && forall k :: k in store ==> k in old(store) && store[k] == old(store)[k]
        invariant EvictTail(View(), stamp, expirationDuration) == EvictTail(old(View()), stamp, expirationDuration)
        decreases |lru|
      {
        ListedDropLast(lru, store);
        EvictUnfolds(View(), stamp, expirationDuration);
        var oldest := lru[|lru| - 1];
        assert Holds(oldest, oldest.key, buckets[oldest.key]);
        if stamp - oldest.lastActive < expirationDuration {
          return;
        }
        RemoveOldest();
      }
      EvictUnfolds(View(), stamp, expirationDuration);
    }

    /** The body of the sweep: forgets the least recently active key and releases its chain. */
    method RemoveOldest()
      requires Valid() && lru != []
      modifies this, lru[|lru| - 1].requests
      ensures Valid() && lru == old(lru)[..|old(lru)| - 1]
      ensures store == old(store) - {old(lru)[|old(lru)| - 1].key} && View() == DropOldest(old(View()))
    {
      hide RateLimitQueue.Queue.Valid, Listed, Keys;
      ListedDropLast(lru, store);
      var oldest := lru[|lru| - 1];
      store := store - {oldest.key};
      lru := lru[..|lru| - 1];
      buckets := buckets - {oldest.key};
      oldest.requests.Clear();
      forall k | k in store ensures Holds(store[k], k, buckets[k]) {
        assert old(Holds(store[k], k, buckets[k]));
      }
    }
  }

  /** An admitted request that has not reported its outcome yet. */
  class Reservation {
    const limiter: InMemoryRateLimiter
    const key: Key
    var done: bool

    constructor (limiter: InMemoryRateLimiter, key: Key)
      ensures this.limiter == limiter && this.key == key && !done
    {
      this.limiter := limiter;
      this.key := key;
      done := false;
    }

    /** Only the first call on a reservation has an effect; a null reservation ignores it. */
    static method Complete(r: Reservation?, success: bool, now: int)
      requires r != null ==> r.limiter.Valid()
      modifies if r == null then {} else {r, r.limiter} + r.limiter.Footprint(r.key)
      ensures r != null ==> r.done && r.limiter.Valid()
      ensures r != null && old(r.done) ==> r.limiter.View() == old(r.limiter.View())
      ensures r != null && !old(r.done) ==>
                r.limiter.View() == CompleteStep(old(r.limiter.View()), r.key, success, now)
    {
      hide RateLimitQueue.Queue.Valid, Listed, Keys, CompleteStep;
      if r == null || r.done {
        return;
      }
      r.done := true;
      r.limiter.Settle(r.key, success, now);
    }
  }
}
