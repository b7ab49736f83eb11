/**
 The sliding-window limiter as steps on values, and the simple limiter it speeds up.

 Times are nanoseconds since the epoch; a recorded request keeps only its whole second.
 The classes in RateLimiter.dfy are proved to perform exactly the steps defined here.
 */
module RateLimitSpec {
  import opened Basics

  /** Keys are only ever compared. */
  datatype Key = Key(name: string)

  /** The whole second a nanosecond instant falls in. */
  function Unix(now: int): int {
    now / NANOS
  }

  /** A request recorded in second ts still counts in second now. */
  predicate Live(now: int, ts: int, duration: int) {
    now - ts < duration
  }

  ghost predicate Sorted(s: seq<int>) {
    forall i, j :: 0 <= i < j < |s| ==> s[i] <= s[j]
  }

  /** Every element that still counts, wherever it stands. */
  function LiveTimes(s: seq<int>, now: int, duration: int): seq<int> {
    if s == [] then []
    else if Live(now, s[0], duration) then [s[0]] + LiveTimes(s[1..], now, duration)
    else LiveTimes(s[1..], now, duration)
  }

  /** Drops expired elements from the front, up to the first live one. */
  function DropExpired(s: seq<int>, now: int, duration: int): seq<int> {
    if s == [] || Live(now, s[0], duration) then s else DropExpired(s[1..], now, duration)
  }

  /** What removeExpired leaves, decided from the two ends of the queue. */
  function Prune(s: seq<int>, now: int, duration: int): seq<int> {
    if s == [] || Live(now, s[0], duration) then s
    else if !Live(now, s[|s| - 1], duration) then []
    else DropExpired(s, now, duration)
  }

  datatype Bucket = Bucket(lastActive: int, times: seq<int>)

  /** The limiter: buckets by key, keys from most to least recently active, in-flight counts. */
  datatype State = State(store: map<Key, Bucket>, lru: seq<Key>, reservations: map<Key, int>)

  const EMPTY := State(map[], [], map[])

  function Times(s: State, key: Key): seq<int> {
    if key in s.store then s.store[key].times else []
  }

  function Without(keys: seq<Key>, key: Key): seq<Key> {
    if keys == [] then []
    else (if keys[0] == key then [] else [keys[0]]) + Without(keys[1..], key)
  }

  /** Marks key active at now and gives it the recorded times ts. */
  function PutBucket(s: State, key: Key, now: int, ts: seq<int>): State {
    s.(store := s.store[key := Bucket(now, ts)],
       lru := [key] + (if key in s.store then Without(s.lru, key) else s.lru))
  }

  function Touch(s: State, key: Key, now: int): State {
    PutBucket(s, key, now, Times(s, key))
  }

  function RequestStep(s: State, key: Key, max: int, duration: int, now: int): (State, bool) {
    var kept := Prune(Times(s, key), Unix(now), duration);
    if |kept| < max then (PutBucket(s, key, now, kept + [Unix(now)]), true)
    else (PutBucket(s, key, now, kept), false)
  }

  function ReserveStep(s: State, key: Key, max: int, duration: int, now: int): (State, bool) {
    var kept := Prune(Times(s, key), Unix(now), duration);
    var touched := PutBucket(s, key, now, kept);
    if |kept| + Get(s.reservations, key) >= max then (touched, false)
    else (touched.(reservations := Inc(s.reservations, key)), true)
  }

  function CompleteStep(s: State, key: Key, success: bool, now: int): State {
    var released := s.(reservations := Dec(s.reservations, key));
    if success then PutBucket(released, key, now, Times(s, key) + [Unix(now)]) else released
  }

  /** Replaces the recorded times of a stored key. */
  function SetTimes(s: State, key: Key, ts: seq<int>): State {
    if key in s.store then s.(store := s.store[key := s.store[key].(times := ts)]) else s
  }

  /** Forgets the least recently active key. */
  function DropOldest(s: State): State {
    if s.lru == [] then s
    else s.(store := s.store - {s.lru[|s.lru| - 1]}, lru := s.lru[..|s.lru| - 1])
  }

  /** Removes keys from the least recently active end while they are idle, as the sweep does. */
  function EvictTail(s: State, stamp: int, expiration: int): State
    decreases |s.lru|
  {
    if s.lru == [] then s
    else
      var oldest := s.lru[|s.lru| - 1];
      if oldest !in s.store || stamp - s.store[oldest].lastActive < expiration then s
      else EvictTail(DropOldest(s), stamp, expiration)
  }

  function EvictStep(s: State, stamp: int, expiration: int): State {
    if expiration <= 0 then s else EvictTail(s, stamp, expiration)
  }

  // ------------------------------------------------------------------------------------
  // Runs: callers hold tickets; every method body is one atomic step under the mutex.

  datatype Ticket = Ticket(key: Key, done: bool)

  datatype Config = Config(duration: Key -> int, expiration: int)

  /** A tick carries the instant it was queued, which can lie before its delivery. */
  datatype Event =
    | Request(key: Key, max: int, now: int)
    | Reserve(key: Key, max: int, now: int)
    | Complete(ticket: nat, success: bool, now: int)
    | Tick(stamp: int, now: int)

  datatype System = System(limiter: State, tickets: seq<Ticket>)

  function Step(cfg: Config, s: System, e: Event): (System, bool) {
    match e
    case Request(key, max, now) =>
      var (l, ok) := RequestStep(s.limiter, key, max, cfg.duration(key), now);
      (s.(limiter := l), ok)
    case Reserve(key, max, now) =>
      var (l, ok) := ReserveStep(s.limiter, key, max, cfg.duration(key), now);
      (System(l, if ok then s.tickets + [Ticket(key, false)] else s.tickets), ok)
    case Complete(t, success, now) =>
      if t < |s.tickets| && !s.tickets[t].done then
        (System(CompleteStep(s.limiter, s.tickets[t].key, success, now),
                s.tickets[t := s.tickets[t].(done := true)]), true)
      else (s, true)
    case Tick(stamp, now) =>
      (s.(limiter := EvictStep(s.limiter, stamp, cfg.expiration)), true)
  }

  function Outstanding(tickets: seq<Ticket>, key: Key): nat {
    if tickets == [] then 0
    else (if tickets[0] == Ticket(key, false) then 1 else 0) + Outstanding(tickets[1..], key)
  }

  /** The simple limiter: it never forgets an accepted request and sweeps nothing. */
  datatype Naive = Naive(log: map<Key, seq<int>>, tickets: seq<Ticket>)

  function Log(n: Naive, key: Key): seq<int> {
    if key in n.log then n.log[key] else []
  }

  function Accept(n: Naive, key: Key, now: int): Naive {
    n.(log := n.log[key := Log(n, key) + [Unix(now)]])
  }

  function InWindow(n: Naive, key: Key, now: int, duration: int): nat {
    |LiveTimes(Log(n, key), Unix(now), duration)|
  }

  function NaiveStep(cfg: Config, n: Naive, e: Event): (Naive, bool) {
    match e
    case Request(key, max, now) =>
      if InWindow(n, key, now, cfg.duration(key)) < max then (Accept(n, key, now), true) else (n, false)
    case Reserve(key, max, now) =>
      if InWindow(n, key, now, cfg.duration(key)) + Outstanding(n.tickets, key) < max
      then (n.(tickets := n.tickets + [Ticket(key, false)]), true)
      else (n, false)
    case Complete(t, success, now) =>
      if t < |n.tickets| && !n.tickets[t].done then
        var m := n.(tickets := n.tickets[t := n.tickets[t].(done := true)]);
        (if success then Accept(m, n.tickets[t].key, now) else m, true)
      else (n, true)
    case Tick(_, _) => (n, true)
  }

  function Run(cfg: Config, s: System, events: seq<Event>): (System, seq<bool>)
    decreases |events|
  {
    if events == [] then (s, [])
    else
      var (s1, d) := Step(cfg, s, events[0]);
      var (s2, ds) := Run(cfg, s1, events[1..]);
      (s2, [d] + ds)
  }

  function NaiveRun(cfg: Config, n: Naive, events: seq<Event>): (Naive, seq<bool>)
    decreases |events|
  {
    if events == [] then (n, [])
    else
      var (n1, d) := NaiveStep(cfg, n, events[0]);
      var (n2, ds) := NaiveRun(cfg, n1, events[1..]);
      (n2, [d] + ds)
  }

  const START := System(EMPTY, [])
  const NAIVE_START := Naive(map[], [])

  /** The clock read under the mutex never goes back; a tick is never stamped in the future. */
  predicate Timely(events: seq<Event>, clock: int) {
    events == [] ||
    (clock <= events[0].now && (events[0].Tick? ==> events[0].stamp <= events[0].now) &&
     Timely(events[1..], events[0].now))
  }

  /** The instant of the last event, or the given one when there is none. */
  function EndClock(events: seq<Event>, clock: int): int {
    if events == [] then clock else events[|events| - 1].now
  }

  /** A key idle long enough to be evicted has no request left in its window. */
  predicate Outlives(cfg: Config, key: Key) {
    cfg.expiration <= 0 || cfg.duration(key) * NANOS <= cfg.expiration
  }

  /** Idle keys are kept at least as long as their window, or never evicted. */
  ghost predicate Covers(cfg: Config) {
    forall key :: Outlives(cfg, key)
  }
}
