/**
 The limiter decides like the simple one on every run, and keeps its shape on the way.
 */
module RateLimitTheorems {
  import opened Basics
  import opened OrderedSets
  import opened RateLimitSpec

  // ---- pruning ------------------------------------------------------------------------

  lemma {:induction false} LiveTimesConcat(a: seq<int>, b: seq<int>, now: int, duration: int)
    ensures LiveTimes(a + b, now, duration) == LiveTimes(a, now, duration) + LiveTimes(b, now, duration)
  {
    if a == [] {
      assert a + b == b;
    } else {
      LiveTimesConcat(a[1..], b, now, duration);
      assert (a + b)[1..] == a[1..] + b;
      var rest := LiveTimes(a[1..], now, duration);
      assert [a[0]] + (rest + LiveTimes(b, now, duration)) == ([a[0]] + rest) + LiveTimes(b, now, duration);
    }
  }

  lemma {:induction false} AllLive(s: seq<int>, now: int, duration: int)
    requires forall i :: 0 <= i < |s| ==> Live(now, s[i], duration)
    ensures LiveTimes(s, now, duration) == s
  {
    if s != [] { AllLive(s[1..], now, duration); }
  }

  lemma {:induction false} NoneLive(s: seq<int>, now: int, duration: int)
    requires forall i :: 0 <= i < |s| ==> !Live(now, s[i], duration)
    ensures LiveTimes(s, now, duration) == []
  {
    if s != [] { NoneLive(s[1..], now, duration); }
  }

  /** On a time-sorted queue, looking only at the two ends drops exactly the expired entries. */
  lemma {:induction false} PruneDropsExactlyExpired(s: seq<int>, now: int, duration: int)
    requires Sorted(s)
    ensures Prune(s, now, duration) == LiveTimes(s, now, duration) == DropExpired(s, now, duration)
  {
    if s == [] {
    } else if Live(now, s[0], duration) {
      AllLive(s, now, duration);
    } else {
      PruneDropsExactlyExpired(s[1..], now, duration);
      if !Live(now, s[|s| - 1], duration) {
        NoneLive(s, now, duration);
      }
    }
  }

  lemma {:induction false} DropIsSuffix(s: seq<int>, now: int, duration: int)
    ensures var kept := DropExpired(s, now, duration);
            |kept| <= |s| && kept == s[|s| - |kept|..] &&
            forall i :: 0 <= i < |s| - |kept| ==> !Live(now, s[i], duration)
  {
    hide Live;
    if s != [] && !Live(now, s[0], duration) {
      var t := s[1..];
      DropIsSuffix(t, now, duration);
      var kept := DropExpired(s, now, duration);
      assert t[|t| - |kept|..] == s[|s| - |kept|..];
      assert forall i :: 0 < i < |s| ==> s[i] == t[i - 1];
    }
  }

  lemma PruneIsSuffix(s: seq<int>, now: int, duration: int)
    requires Sorted(s)
    ensures var kept := Prune(s, now, duration);
            |kept| <= |s| && kept == s[|s| - |kept|..] &&
            forall i :: 0 <= i < |s| - |kept| ==> !Live(now, s[i], duration)
  {
    hide Live, LiveTimes, Sorted;
    PruneDropsExactlyExpired(s, now, duration);
    DropIsSuffix(s, now, duration);
  }

  // ---- shape of the store and the recency list ----------------------------------------

  ghost predicate SameKeys(keys: seq<Key>, store: map<Key, Bucket>) {
    forall key :: key in keys <==> key in store
  }

  /** Listed keys are stored, from the most to the least recently active. */
  ghost predicate ByRecency(keys: seq<Key>, store: map<Key, Bucket>) {
    (forall i :: 0 <= i < |keys| ==> keys[i] in store) &&
    forall i, j :: 0 <= i < j < |keys| ==> store[keys[i]].lastActive >= store[keys[j]].lastActive
  }

  ghost predicate GoodBucket(b: Bucket, clock: int) {
    b.lastActive <= clock && Sorted(b.times) &&
    forall i :: 0 <= i < |b.times| ==> b.times[i] <= Unix(b.lastActive)
  }

  ghost predicate GoodBuckets(store: map<Key, Bucket>, clock: int) {
    forall key :: key in store ==> GoodBucket(store[key], clock)
  }

  /** The recency list holds each stored key once, newest first; each queue is time sorted. */
  ghost predicate WellFormed(s: State, clock: int) {
    NoDup(s.lru) && SameKeys(s.lru, s.store) && ByRecency(s.lru, s.store) && GoodBuckets(s.store, clock)
  }

  lemma {:induction false} WithoutProps(keys: seq<Key>, key: Key)
    requires NoDup(keys)
    ensures NoDup(Without(keys, key))
    ensures forall k :: k in Without(keys, key) <==> k in keys && k != key
  {
    if keys != [] {
      WithoutProps(keys[1..], key);
      var rest := Without(keys[1..], key);
      assert keys == [keys[0]] + keys[1..];
      assert keys[0] !in keys[1..];
      assert forall k :: k in Without(keys, key) <==> k in keys && k != key;
      assert NoDup([keys[0]] + rest);
    }
  }

  lemma {:induction false} WithoutKeepsRecency(keys: seq<Key>, key: Key, store: map<Key, Bucket>)
    requires ByRecency(keys, store)
    requires NoDup(keys)
    ensures ByRecency(Without(keys, key), store)
  {
    if keys != [] {
      WithoutKeepsRecency(keys[1..], key, store);
      WithoutProps(keys[1..], key);
      var rest := Without(keys[1..], key);
      forall j | 0 <= j < |rest| ensures store[keys[0]].lastActive >= store[rest[j]].lastActive {
        assert rest[j] in keys[1..];
        var i :| 0 <= i < |keys| - 1 && keys[1..][i] == rest[j];
        assert keys[i + 1] == rest[j];
      }
      assert ByRecency([keys[0]] + rest, store);
    }
  }

  /** Putting a key that is newest and not listed in front keeps a list ordered. */
  lemma FrontKeepsOrder(rest: seq<Key>, store: map<Key, Bucket>, key: Key, b: Bucket)
    requires NoDup(rest) && ByRecency(rest, store) && key !in rest
    requires forall k :: k in store ==> store[k].lastActive <= b.lastActive
    ensures NoDup([key] + rest) && ByRecency([key] + rest, store[key := b])
  {}

  lemma PutKeepsShape(s: State, key: Key, clock: int, now: int, ts: seq<int>)
    requires WellFormed(s, clock) && clock <= now && GoodBucket(Bucket(now, ts), now)
    ensures WellFormed(PutBucket(s, key, now, ts), now)
  {
    var rest := if key in s.store then Without(s.lru, key) else s.lru;
    assert NoDup(rest) && ByRecency(rest, s.store) && key !in rest by {
      WithoutProps(s.lru, key);
      WithoutKeepsRecency(s.lru, key, s.store);
    }
    FrontKeepsOrder(rest, s.store, key, Bucket(now, ts));
    assert SameKeys([key] + rest, s.store[key := Bucket(now, ts)]) by {
      WithoutProps(s.lru, key);
    }
  }

  predicate Idle(b: Bucket, stamp: int, expiration: int) {
    stamp - b.lastActive >= expiration
  }

  /** Early stop at the first active key deletes exactly the keys idle for the full expiration. */
  lemma {:induction false} EvictsExactlyIdle(s: State, clock: int, stamp: int, expiration: int)
    requires WellFormed(s, clock)
    ensures var t := EvictTail(s, stamp, expiration);
            WellFormed(t, clock) && t.reservations == s.reservations &&
            forall k :: (k in t.store <==> k in s.store && !Idle(s.store[k], stamp, expiration)) &&
                        (k in t.store ==> t.store[k] == s.store[k])
    decreases |s.lru|
  {
    if s.lru == [] {
      assert forall k :: k in s.store ==> k in s.lru;
    } else {
      var last := |s.lru| - 1;
      var oldest := s.lru[last];
      if Idle(s.store[oldest], stamp, expiration) {
        DropLastKeepsShape(s, clock);
        EvictsExactlyIdle(s.(store := s.store - {oldest}, lru := s.lru[..last]), clock, stamp, expiration);
      } else {
        NoneOlderThanLast(s.lru, s.store);
        assert SameKeys(s.lru, s.store);
      }
    }
  }

  lemma NoneOlderThanLast(keys: seq<Key>, store: map<Key, Bucket>)
    requires ByRecency(keys, store) && keys != []
    ensures forall k :: k in keys ==> k in store && store[k].lastActive >= store[keys[|keys| - 1]].lastActive
  {}

  lemma DropLastKeepsShape(s: State, clock: int)
    requires WellFormed(s, clock) && s.lru != []
    ensures var last := |s.lru| - 1;
            WellFormed(s.(store := s.store - {s.lru[last]}, lru := s.lru[..last]), clock)
  {}

  // ---- tickets ------------------------------------------------------------------------

  lemma {:induction false} OutstandingAppend(tickets: seq<Ticket>, t: Ticket, key: Key)
    ensures Outstanding(tickets + [t], key) == Outstanding(tickets, key) + if t == Ticket(key, false) then 1 else 0
  {
    if tickets != [] {
      OutstandingAppend(tickets[1..], t, key);
      assert (tickets + [t])[1..] == tickets[1..] + [t];
    }
  }

  lemma {:induction false} OutstandingDone(tickets: seq<Ticket>, i: nat, key: Key)
    requires i < |tickets| && !tickets[i].done
    ensures Outstanding(tickets, key) ==
            Outstanding(tickets[i := tickets[i].(done := true)], key) + if tickets[i].key == key then 1 else 0
  {
    var after := tickets[i := tickets[i].(done := true)];
    if i == 0 {
      assert after[1..] == tickets[1..];
    } else {
      OutstandingDone(tickets[1..], i - 1, key);
      assert after[1..] == tickets[1..][i - 1 := tickets[1..][i - 1].(done := true)];
    }
  }

  // ---- simulation ---------------------------------------------------------------------

  /** The bucket holds the end of the full log; whatever it forgot has left the window. */
  ghost predicate Forgot(log: seq<int>, times: seq<int>, second: int, duration: int) {
    && |times| <= |log|
    && times == log[|log| - |times|..]
    && forall i :: 0 <= i < |log| - |times| ==> !Live(second, log[i], duration)
  }

  ghost predicate Remembers(cfg: Config, l: State, n: Naive, clock: int) {
    forall key :: Forgot(Log(n, key), Times(l, key), Unix(clock), cfg.duration(key))
  }

  ghost predicate Counted(reservations: map<Key, int>, tickets: seq<Ticket>) {
    forall key :: (key in reservations ==> reservations[key] != 0) &&
                  Get(reservations, key) == Outstanding(tickets, key)
  }

  ghost predicate Simulates(cfg: Config, s: System, n: Naive, clock: int) {
    && WellFormed(s.limiter, clock)
    && Remembers(cfg, s.limiter, n, clock)
    && s.tickets == n.tickets
    && Counted(s.limiter.reservations, s.tickets)
  }

  lemma TimePasses(cfg: Config, l: State, n: Naive, clock: int, now: int)
    requires Remembers(cfg, l, n, clock) && clock <= now
    ensures Remembers(cfg, l, n, now)
  {}

  /** Pruning what is left of a log counts the whole log, and forgets nothing that still counts. */
  lemma PruneCountsLog(log: seq<int>, times: seq<int>, second: int, duration: int)
    requires Forgot(log, times, second, duration) && Sorted(times)
    ensures var kept := Prune(times, second, duration);
            |kept| == |LiveTimes(log, second, duration)| && Forgot(log, kept, second, duration)
  {
    hide Live, LiveTimes, Prune, DropExpired, Sorted;
    var dropped := log[..|log| - |times|];
    assert log == dropped + times;
    LiveTimesConcat(dropped, times, second, duration);
    NoneLive(dropped, second, duration);
    PruneDropsExactlyExpired(times, second, duration);
    PruneIsSuffix(times, second, duration);
    var kept := Prune(times, second, duration);
    assert kept == log[|log| - |kept|..];
    forall i | 0 <= i < |log| - |kept| ensures !Live(second, log[i], duration) {
      if i >= |dropped| { assert log[i] == times[i - |dropped|]; }
    }
    assert [] + LiveTimes(times, second, duration) == LiveTimes(times, second, duration);
  }

  lemma ForgotAppend(log: seq<int>, times: seq<int>, second: int, duration: int)
    requires Forgot(log, times, second, duration)
    ensures Forgot(log + [second], times + [second], second, duration)
  {}

  /** What pruning keeps of a stored key is a good bucket now, also with this second appended. */
  lemma KeptIsGood(l: State, key: Key, clock: int, now: int, duration: int)
    requires WellFormed(l, clock) && clock <= now
    ensures Sorted(Times(l, key)) && GoodBucket(Bucket(now, Times(l, key) + [Unix(now)]), now)
    ensures var kept := Prune(Times(l, key), Unix(now), duration);
            GoodBucket(Bucket(now, kept), now) && GoodBucket(Bucket(now, kept + [Unix(now)]), now)
  {
    assert key in l.store ==> GoodBucket(l.store[key], clock);
    PruneIsSuffix(Times(l, key), Unix(now), duration);
  }

  /** A key's bucket and log may change together; no other key notices. */
  lemma PutRemembers(cfg: Config, l: State, n: Naive, key: Key, now: int, ts: seq<int>, n': Naive)
    requires Remembers(cfg, l, n, now)
    requires forall k :: k != key ==> Log(n', k) == Log(n, k)
    requires Forgot(Log(n', key), ts, Unix(now), cfg.duration(key))
    ensures Remembers(cfg, PutBucket(l, key, now, ts), n', now)
  {}

  lemma RequestRemembers(cfg: Config, s: System, n: Naive, clock: int, key: Key, max: int, now: int)
    requires Simulates(cfg, s, n, clock) && clock <= now
    ensures var e := Request(key, max, now);
            Step(cfg, s, e).1 == NaiveStep(cfg, n, e).1 &&
            Remembers(cfg, Step(cfg, s, e).0.limiter, NaiveStep(cfg, n, e).0, now)
  {
    hide Forgot, Prune, WellFormed, Counted;
    var l, d, log := s.limiter, cfg.duration(key), Log(n, key);
    var kept := Prune(Times(l, key), Unix(now), d);
    PrunedCount(cfg, s, n, clock, key, now);
    if |kept| < max {
      ForgotAppend(log, kept, Unix(now), d);
      PutRemembers(cfg, l, n, key, now, kept + [Unix(now)], Accept(n, key, now));
    } else {
      PutRemembers(cfg, l, n, key, now, kept, n);
    }
  }

  /** After pruning, the queue's length is the number of logged requests in the window. */
  lemma PrunedCount(cfg: Config, s: System, n: Naive, clock: int, key: Key, now: int)
    requires Simulates(cfg, s, n, clock) && clock <= now
    ensures Remembers(cfg, s.limiter, n, now)
    ensures var kept := Prune(Times(s.limiter, key), Unix(now), cfg.duration(key));
            |kept| == InWindow(n, key, now, cfg.duration(key)) &&
            Forgot(Log(n, key), kept, Unix(now), cfg.duration(key))
  {
    TimePasses(cfg, s.limiter, n, clock, now);
    assert Forgot(Log(n, key), Times(s.limiter, key), Unix(now), cfg.duration(key));
    KeptIsGood(s.limiter, key, clock, now, cfg.duration(key));
    PruneCountsLog(Log(n, key), Times(s.limiter, key), Unix(now), cfg.duration(key));
  }

  lemma ReserveCounts(reservations: map<Key, int>, tickets: seq<Ticket>, key: Key)
    requires Counted(reservations, tickets)
    ensures Counted(Inc(reservations, key), tickets + [Ticket(key, false)])
  {
    forall k ensures Outstanding(tickets + [Ticket(key, false)], k) ==
                     Outstanding(tickets, k) + if k == key then 1 else 0
    {
      OutstandingAppend(tickets, Ticket(key, false), k);
    }
  }

  lemma ReserveRemembers(cfg: Config, s: System, n: Naive, clock: int, key: Key, max: int, now: int)
    requires Simulates(cfg, s, n, clock) && clock <= now
    ensures var e := Reserve(key, max, now);
            Step(cfg, s, e).1 == NaiveStep(cfg, n, e).1 &&
            Remembers(cfg, Step(cfg, s, e).0.limiter, NaiveStep(cfg, n, e).0, now)
  {
    hide Forgot, Prune, WellFormed;
    var l := s.limiter;
    var kept := Prune(Times(l, key), Unix(now), cfg.duration(key));
    PrunedCount(cfg, s, n, clock, key, now);
    PutRemembers(cfg, l, n, key, now, kept, n);
    SameTimes(cfg, PutBucket(l, key, now, kept), Step(cfg, s, Reserve(key, max, now)).0.limiter,
              n, NaiveStep(cfg, n, Reserve(key, max, now)).0, now);
  }

  lemma SameTimes(cfg: Config, l: State, l': State, n: Naive, n': Naive, now: int)
    requires Remembers(cfg, l, n, now) && l.store == l'.store && n.log == n'.log
    ensures Remembers(cfg, l', n', now)
  {}

  lemma CompleteCounts(reservations: map<Key, int>, tickets: seq<Ticket>, t: nat)
    requires Counted(reservations, tickets) && t < |tickets| && !tickets[t].done
    ensures Counted(Dec(reservations, tickets[t].key), tickets[t := tickets[t].(done := true)])
  {
    var after := tickets[t := tickets[t].(done := true)];
    forall k ensures Outstanding(tickets, k) == Outstanding(after, k) + if k == tickets[t].key then 1 else 0 {
      OutstandingDone(tickets, t, k);
    }
  }

  lemma CompleteRemembers(cfg: Config, s: System, n: Naive, clock: int, t: nat, success: bool, now: int)
    requires Simulates(cfg, s, n, clock) && clock <= now
    ensures var e := Complete(t, success, now);
            Remembers(cfg, Step(cfg, s, e).0.limiter, NaiveStep(cfg, n, e).0, now)
  {
    hide Forgot;
    TimePasses(cfg, s.limiter, n, clock, now);
    if t < |s.tickets| && !s.tickets[t].done {
      var l, key := s.limiter, s.tickets[t].key;
      var released := l.(reservations := Dec(l.reservations, key));
      var m := n.(tickets := n.tickets[t := n.tickets[t].(done := true)]);
      SameTimes(cfg, l, released, n, m, now);
      if success {
        assert Forgot(Log(m, key), Times(released, key), Unix(now), cfg.duration(key));
        ForgotAppend(Log(m, key), Times(l, key), Unix(now), cfg.duration(key));
        PutRemembers(cfg, released, m, key, now, Times(l, key) + [Unix(now)], Accept(m, key, now));
      }
    }
  }

  /** Every step of the limiter keeps store, recency list and queues in shape. */
  lemma StepKeepsShape(cfg: Config, s: System, clock: int, e: Event)
    requires WellFormed(s.limiter, clock) && clock <= e.now
    ensures WellFormed(Step(cfg, s, e).0.limiter, e.now)
  {
    var l := s.limiter;
    match e
    case Request(key, max, now) =>
      var kept := Prune(Times(l, key), Unix(now), cfg.duration(key));
      KeptIsGood(l, key, clock, now, cfg.duration(key));
      PutKeepsShape(l, key, clock, now, if |kept| < max then kept + [Unix(now)] else kept);
    case Reserve(key, max, now) =>
      KeptIsGood(l, key, clock, now, cfg.duration(key));
      PutKeepsShape(l, key, clock, now, Prune(Times(l, key), Unix(now), cfg.duration(key)));
    case Complete(t, success, now) =>
      if t < |s.tickets| && !s.tickets[t].done && success {
        var key := s.tickets[t].key;
        KeptIsGood(l, key, clock, now, cfg.duration(key));
        PutKeepsShape(l.(reservations := Dec(l.reservations, key)), key, clock, now,
                      Times(l, key) + [Unix(now)]);
      }
    case Tick(stamp, now) =>
      if cfg.expiration > 0 { EvictsExactlyIdle(l, clock, stamp, cfg.expiration); }
  }

  /** In-flight counters always equal the number of unfinished tickets, with no zero entries left. */
  lemma StepCounts(cfg: Config, s: System, clock: int, e: Event)
    requires WellFormed(s.limiter, clock) && Counted(s.limiter.reservations, s.tickets)
    ensures var s' := Step(cfg, s, e).0; Counted(s'.limiter.reservations, s'.tickets)
  {
    match e
    case Request(_, _, _) =>
    case Reserve(key, max, now) => ReserveCounts(s.limiter.reservations, s.tickets, key);
    case Complete(t, success, now) =>
      if t < |s.tickets| && !s.tickets[t].done { CompleteCounts(s.limiter.reservations, s.tickets, t); }
    case Tick(stamp, now) =>
      if cfg.expiration > 0 { EvictsExactlyIdle(s.limiter, clock, stamp, cfg.expiration); }
  }

  lemma {:induction false} RunKeepsShape(cfg: Config, s: System, clock: int, events: seq<Event>)
    requires WellFormed(s.limiter, clock) && Counted(s.limiter.reservations, s.tickets) && Timely(events, clock)
    ensures var s' := Run(cfg, s, events).0;
            WellFormed(s'.limiter, EndClock(events, clock)) && Counted(s'.limiter.reservations, s'.tickets)
    decreases |events|
  {
    hide WellFormed, Counted, Step;
    if events != [] {
      StepKeepsShape(cfg, s, clock, events[0]);
      StepCounts(cfg, s, clock, events[0]);
      RunKeepsShape(cfg, Step(cfg, s, events[0]).0, events[0].now, events[1..]);
    }
  }

  /** In every reachable state, whatever the configuration: the store and the recency list hold the same keys,
      newest first, the queues are time sorted, and the counters are the unfinished tickets. */
  lemma ReachableShape(cfg: Config, events: seq<Event>, clock: int)
    requires Timely(events, clock)
    ensures var s := Run(cfg, START, events).0;
            WellFormed(s.limiter, EndClock(events, clock)) && Counted(s.limiter.reservations, s.tickets)
  {
    RunKeepsShape(cfg, START, clock, events);
  }

  /** An eviction leaves a key's times alone or drops them all, and only of a key idle that long. */
  lemma EvictionForgets(l: State, clock: int, stamp: int, expiration: int, key: Key)
    requires WellFormed(l, clock)
    ensures var t := EvictTail(l, stamp, expiration);
            Times(t, key) == Times(l, key) ||
            (Times(t, key) == [] && key in l.store && Idle(l.store[key], stamp, expiration))
  {
    EvictsExactlyIdle(l, clock, stamp, expiration);
  }

  lemma StoredIsGood(l: State, key: Key, clock: int)
    requires WellFormed(l, clock) && key in l.store
    ensures GoodBucket(l.store[key], clock)
  {}

  /** A tick deletes exactly the keys that were idle at its stamp, and changes nothing else. */
  lemma TickDeletesIdle(cfg: Config, s: System, clock: int, stamp: int, now: int)
    requires WellFormed(s.limiter, clock)
    ensures var l, t := s.limiter, Step(cfg, s, Tick(stamp, now)).0;
            t.tickets == s.tickets && t.limiter.reservations == l.reservations &&
            forall k :: (k in t.limiter.store <==>
                           k in l.store && !(cfg.expiration > 0 && Idle(l.store[k], stamp, cfg.expiration))) &&
                        (k in t.limiter.store ==> t.limiter.store[k] == l.store[k])
  {
    hide WellFormed;
    if cfg.expiration > 0 { EvictsExactlyIdle(s.limiter, clock, stamp, cfg.expiration); }
  }

  /** The same in every reachable state: a key is left if and only if it was stored and active. */
  lemma SweepExact(cfg: Config, events: seq<Event>, clock: int, stamp: int, now: int)
    requires Timely(events, clock)
    ensures var s := Run(cfg, START, events).0;
            var l, t := s.limiter, Step(cfg, s, Tick(stamp, now)).0.limiter;
            forall k :: (k in t.store <==>
                           k in l.store && !(cfg.expiration > 0 && Idle(l.store[k], stamp, cfg.expiration))) &&
                        (k in t.store ==> t.store[k] == l.store[k])
  {
    hide Run, WellFormed, Step;
    ReachableShape(cfg, events, clock);
    TickDeletesIdle(cfg, Run(cfg, START, events).0, EndClock(events, clock), stamp, now);
  }

  /** A call marks its key active whether or not it is allowed, leaves exactly the unexpired requests in its bucket,
      with the new one if it was recorded, and touches no other key. */
  lemma CallLeaves(cfg: Config, s: System, clock: int, e: Event)
    requires WellFormed(s.limiter, clock) && clock <= e.now && (e.Request? || e.Reserve?)
    ensures var l, (t, ok) := s.limiter, Step(cfg, s, e);
            var live := LiveTimes(Times(l, e.key), Unix(e.now), cfg.duration(e.key));
            (forall k :: k in t.limiter.store <==> k in l.store || k == e.key) &&
            (forall k :: k in l.store && k != e.key ==> t.limiter.store[k] == l.store[k]) &&
            t.limiter.store[e.key] == Bucket(e.now, if e.Request? && ok then live + [Unix(e.now)] else live) &&
            t.tickets == if e.Reserve? && ok then s.tickets + [Ticket(e.key, false)] else s.tickets
  {
    hide LiveTimes, Unix, Prune;
    KeptIsGood(s.limiter, e.key, clock, e.now, cfg.duration(e.key));
    PruneDropsExactlyExpired(Times(s.limiter, e.key), Unix(e.now), cfg.duration(e.key));
  }

  /** The decision itself, for every expiration: a request counts what is recorded and still in the window, and a
      reservation adds the key's unfinished tickets. */
  lemma DecisionExact(cfg: Config, s: System, clock: int, e: Event)
    requires WellFormed(s.limiter, clock) && Counted(s.limiter.reservations, s.tickets) && clock <= e.now
    requires e.Request? || e.Reserve?
    ensures var live := |LiveTimes(Times(s.limiter, e.key), Unix(e.now), cfg.duration(e.key))|;
            Step(cfg, s, e).1 <==> live + (if e.Reserve? then Outstanding(s.tickets, e.key) else 0) < e.max
  {
    hide LiveTimes, Unix, Prune, WellFormed, Outstanding;
    KeptIsGood(s.limiter, e.key, clock, e.now, cfg.duration(e.key));
    PruneDropsExactlyExpired(Times(s.limiter, e.key), Unix(e.now), cfg.duration(e.key));
    assert Get(s.limiter.reservations, e.key) == Outstanding(s.tickets, e.key);
  }

  /** The first completion of a ticket frees its slot, and a success is recorded under the ticket's key. */
  lemma CompletionLeaves(cfg: Config, s: System, e: Event)
    requires e.Complete?
    ensures var l, t := s.limiter, Step(cfg, s, e).0;
            if e.ticket < |s.tickets| && !s.tickets[e.ticket].done then
              var key := s.tickets[e.ticket].key;
              t.tickets == s.tickets[e.ticket := Ticket(key, true)] &&
              (forall k :: k in t.limiter.store <==> k in l.store || (e.success && k == key)) &&
              (forall k :: k in l.store && !(e.success && k == key) ==> t.limiter.store[k] == l.store[k]) &&
              (e.success ==> t.limiter.store[key] == Bucket(e.now, Times(l, key) + [Unix(e.now)]))
            else t == s
  {}

  // ---- how long a key is remembered -------------------------------------------------------------

  /** The event is a call for the key, or records one of its requests. */
  predicate Touches(s: System, e: Event, key: Key) {
    match e
    case Request(k, _, _) => k == key
    case Reserve(k, _, _) => k == key
    case Complete(t, success, _) => t < |s.tickets| && s.tickets[t] == Ticket(key, false) && success
    case Tick(_, _) => false
  }

  predicate FoundIdle(cfg: Config, stamp: int, last: Option<int>) {
    cfg.expiration > 0 && last.Some? && stamp - last.value >= cfg.expiration
  }

  /** When the key was last active, unless a tick has found it idle since. */
  function Activity(cfg: Config, s: System, events: seq<Event>, key: Key, last: Option<int>): Option<int>
    decreases |events|
  {
    if events == [] then last
    else
      var e := events[0];
      var next := if Touches(s, e, key) then Some(e.now)
                  else if e.Tick? && FoundIdle(cfg, e.stamp, last) then None
                  else last;
      Activity(cfg, Step(cfg, s, e).0, events[1..], key, next)
  }

  function LastActive(l: State, key: Key): Option<int> {
    if key in l.store then Some(l.store[key].lastActive) else None
  }

  lemma {:induction false} RunActivity(cfg: Config, s: System, clock: int, events: seq<Event>, key: Key)
    requires WellFormed(s.limiter, clock) && Timely(events, clock)
    ensures LastActive(Run(cfg, s, events).0.limiter, key) ==
            Activity(cfg, s, events, key, LastActive(s.limiter, key))
    decreases |events|
  {
    hide WellFormed, Step;
    if events != [] {
      StepActivity(cfg, s, clock, events[0], key);
      StepKeepsShape(cfg, s, clock, events[0]);
      RunActivity(cfg, Step(cfg, s, events[0]).0, events[0].now, events[1..], key);
    }
  }

  lemma StepActivity(cfg: Config, s: System, clock: int, e: Event, key: Key)
    requires WellFormed(s.limiter, clock) && clock <= e.now
    ensures var last, next := LastActive(s.limiter, key), LastActive(Step(cfg, s, e).0.limiter, key);
            next == if Touches(s, e, key) then Some(e.now)
                    else if e.Tick? && FoundIdle(cfg, e.stamp, last) then None
                    else last
  {
    hide WellFormed, Step, LiveTimes, Unix;
    match e
    case Request(_, _, _) => CallLeaves(cfg, s, clock, e);
    case Reserve(_, _, _) => CallLeaves(cfg, s, clock, e);
    case Complete(_, _, _) => CompletionLeaves(cfg, s, e);
    case Tick(stamp, now) => TickDeletesIdle(cfg, s, clock, stamp, now);
  }

  /** After every run a key is stored exactly while it counts as active, with its last activity. */
  lemma StoredWhileActive(cfg: Config, events: seq<Event>, clock: int, key: Key)
    requires Timely(events, clock)
    ensures LastActive(Run(cfg, START, events).0.limiter, key) == Activity(cfg, START, events, key, None)
  {
    RunActivity(cfg, START, clock, events, key);
  }

  /** What an eviction makes a key forget has left its window, when the key outlives it. */
  lemma TickForgot(cfg: Config, l: State, log: seq<int>, clock: int, stamp: int, now: int, key: Key)
    requires WellFormed(l, clock) && stamp <= now && Outlives(cfg, key) && cfg.expiration > 0
    requires Forgot(log, Times(l, key), Unix(now), cfg.duration(key))
    ensures Forgot(log, Times(EvictTail(l, stamp, cfg.expiration), key), Unix(now), cfg.duration(key))
  {
    hide WellFormed, Forgot, EvictTail, Unix, Outlives;
    EvictionForgets(l, clock, stamp, cfg.expiration, key);
    if key in l.store && Idle(l.store[key], stamp, cfg.expiration) {
      StoredIsGood(l, key, clock);
      EvictedForgot(l.store[key], log, cfg, key, clock, now);
    }
  }

  lemma TickRemembers(cfg: Config, s: System, n: Naive, clock: int, stamp: int, now: int)
    requires Covers(cfg) && Simulates(cfg, s, n, clock) && clock <= now && stamp <= now
    ensures Remembers(cfg, Step(cfg, s, Tick(stamp, now)).0.limiter, n, now)
  {
    hide WellFormed, Forgot, EvictTail, Unix, Outlives;
    TimePasses(cfg, s.limiter, n, clock, now);
    if cfg.expiration > 0 {
      var t := EvictTail(s.limiter, stamp, cfg.expiration);
      forall key ensures Forgot(Log(n, key), Times(t, key), Unix(now), cfg.duration(key)) {
        TickForgot(cfg, s.limiter, Log(n, key), clock, stamp, now, key);
      }
    }
  }

  lemma EvictedForgot(b: Bucket, log: seq<int>, cfg: Config, key: Key, clock: int, now: int)
    requires Outlives(cfg, key) && cfg.expiration > 0
    requires GoodBucket(b, clock) && now - b.lastActive >= cfg.expiration
    requires Forgot(log, b.times, Unix(now), cfg.duration(key))
    ensures Forgot(log, [], Unix(now), cfg.duration(key))
  {}

  lemma StepSimulates(cfg: Config, s: System, n: Naive, clock: int, e: Event)
    requires Covers(cfg) && Simulates(cfg, s, n, clock)
    requires clock <= e.now && (e.Tick? ==> e.stamp <= e.now)
    ensures Step(cfg, s, e).1 == NaiveStep(cfg, n, e).1
    ensures Simulates(cfg, Step(cfg, s, e).0, NaiveStep(cfg, n, e).0, e.now)
  {
    var s', n' := Step(cfg, s, e).0, NaiveStep(cfg, n, e).0;
    assert WellFormed(s'.limiter, e.now) by { StepKeepsShape(cfg, s, clock, e); }
    assert Counted(s'.limiter.reservations, s'.tickets) by { StepCounts(cfg, s, clock, e); }
    StepRemembers(cfg, s, n, clock, e);
  }

  lemma StepRemembers(cfg: Config, s: System, n: Naive, clock: int, e: Event)
    requires Covers(cfg) && Simulates(cfg, s, n, clock)
    requires clock <= e.now && (e.Tick? ==> e.stamp <= e.now)
    ensures Step(cfg, s, e).1 == NaiveStep(cfg, n, e).1 && Step(cfg, s, e).0.tickets == NaiveStep(cfg, n, e).0.tickets
    ensures Remembers(cfg, Step(cfg, s, e).0.limiter, NaiveStep(cfg, n, e).0, e.now)
  {
    match e
    case Request(key, max, now) => RequestRemembers(cfg, s, n, clock, key, max, now);
    case Reserve(key, max, now) => ReserveRemembers(cfg, s, n, clock, key, max, now);
    case Complete(t, success, now) => CompleteRemembers(cfg, s, n, clock, t, success, now);
    case Tick(stamp, now) => TickRemembers(cfg, s, n, clock, stamp, now);
  }

  lemma {:induction false} RunSimulates(cfg: Config, s: System, n: Naive, clock: int, events: seq<Event>)
    requires Covers(cfg) && Simulates(cfg, s, n, clock) && Timely(events, clock)
    ensures Run(cfg, s, events).1 == NaiveRun(cfg, n, events).1
    ensures Simulates(cfg, Run(cfg, s, events).0, NaiveRun(cfg, n, events).0, EndClock(events, clock))
    decreases |events|
  {
    hide Simulates, Covers, Step, NaiveStep;
    if events != [] {
      StepSimulates(cfg, s, n, clock, events[0]);
      RunSimulates(cfg, Step(cfg, s, events[0]).0, NaiveStep(cfg, n, events[0]).0, events[0].now, events[1..]);
    }
  }

  /** Same decisions as the simple limiter on every run with a monotone clock. */
  ghost predicate Invisible(cfg: Config) {
    forall events: seq<Event>, clock: int :: Timely(events, clock) ==>
      Run(cfg, START, events).1 == NaiveRun(cfg, NAIVE_START, events).1
  }

  /** Evicting a key inside its window lets one request too many through. */
  lemma EarlyEvictionShows(cfg: Config, key: Key)
    requires !Outlives(cfg, key)
    ensures !Invisible(cfg)
  {
    var first, tick := Request(key, 1, 0), Tick(cfg.expiration, cfg.expiration);
    var second := Request(key, 1, cfg.expiration);
    var s1, n1 := Step(cfg, START, first).0, NaiveStep(cfg, NAIVE_START, first).0;
    assert s1.limiter == PutBucket(EMPTY, key, 0, [0]) && n1 == Accept(NAIVE_START, key, 0) by {
      assert Prune([], Unix(0), cfg.duration(key)) + [Unix(0)] == [0];
    }
    var s2 := Step(cfg, s1, tick).0;
    assert s2.limiter.store == map[] by {
      var swept := s1.limiter.(store := s1.limiter.store - {key}, lru := s1.limiter.lru[..0]);
      assert s1.limiter.lru == [key] && swept.store == map[];
      assert EvictTail(swept, cfg.expiration, cfg.expiration) == swept;
    }
    var events := [first] + ([tick] + ([second] + []));
    RunCons(cfg, s2, n1, second, []);
    RunCons(cfg, s1, n1, tick, [second] + []);
    RunCons(cfg, START, NAIVE_START, first, [tick] + ([second] + []));
    assert Timely([second] + [], cfg.expiration) && Timely([tick] + ([second] + []), 0) && Timely(events, 0);
    assert Step(cfg, s2, second).1;
    assert !NaiveStep(cfg, n1, second).1 by {
      assert Log(n1, key) == [0] && Live(Unix(cfg.expiration), 0, cfg.duration(key));
    }
    assert Run(cfg, START, events).1[2] && !NaiveRun(cfg, NAIVE_START, events).1[2];
  }

  lemma RunCons(cfg: Config, s: System, n: Naive, e: Event, events: seq<Event>)
    ensures Run(cfg, s, [e] + events).1 == [Step(cfg, s, e).1] + Run(cfg, Step(cfg, s, e).0, events).1
    ensures NaiveRun(cfg, n, [e] + events).1 ==
            [NaiveStep(cfg, n, e).1] + NaiveRun(cfg, NaiveStep(cfg, n, e).0, events).1
    ensures forall clock :: Timely([e] + events, clock) <==>
              clock <= e.now && (e.Tick? ==> e.stamp <= e.now) && Timely(events, e.now)
  {}

  /** Pruning, eviction and reservation counters are invisible exactly when idle keys outlive their window. */
  lemma InvisibleIffCovered(cfg: Config)
    ensures Invisible(cfg) <==> Covers(cfg)
  {
    if Covers(cfg) {
      forall events: seq<Event>, clock: int | Timely(events, clock)
        ensures Run(cfg, START, events).1 == NaiveRun(cfg, NAIVE_START, events).1
      {
        RunSimulates(cfg, START, NAIVE_START, clock, events);
      }
    } else {
      var key :| !Outlives(cfg, key);
      EarlyEvictionShows(cfg, key);
    }
  }
}
