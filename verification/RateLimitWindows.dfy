/**
 The promise to the protected side, counted in two ways: how many requests of a key are accepted within a
 window of whole seconds, and within a window of clock time. Also how many it holds in queue and in flight.
 */
module RateLimitWindows {
  import opened Basics
  import opened RateLimitSpec
  import opened RateLimitTheorems

  /** The instants or seconds inside [from, from + width). */
  function Span(s: seq<int>, from: int, width: int): seq<int> {
    if s == [] then []
    else (if from <= s[0] < from + width then [s[0]] else []) + Span(s[1..], from, width)
  }

  ghost predicate Within(log: seq<int>, width: int, cap: nat) {
    forall from :: |Span(log, from, width)| <= cap
  }

  function Cap(limit: int): nat {
    if limit < 0 then 0 else limit
  }

  /** How callers use a key: through Request, through Reserve and Complete, or through both. */
  datatype Use = Requests | Reservations | Both

  /** A request does not look at what is in flight, so the two ways together can reach twice the limit. */
  function Bound(limit: int, use: Use): nat {
    if use.Both? then 2 * Cap(limit) else Cap(limit)
  }

  /** A key is used with one limit, and only in the given way. */
  predicate Disciplined(e: Event, key: Key, limit: int, use: Use) {
    match e
    case Request(k, max, _) => k == key ==> !use.Reservations? && max == limit
    case Reserve(k, max, _) => k == key ==> !use.Requests? && max == limit
    case Complete(_, _, _) => true
    case Tick(_, _) => true
  }

  ghost predicate AllDisciplined(events: seq<Event>, key: Key, limit: int, use: Use) {
    forall i :: 0 <= i < |events| ==> Disciplined(events[i], key, limit, use)
  }

  /** What a step adds to the accepted requests of a key, as an instant. */
  function Adds(cfg: Config, s: System, e: Event, key: Key): seq<int> {
    match e
    case Request(k, _, now) => if k == key && Step(cfg, s, e).1 then [now] else []
    case Complete(t, success, now) =>
      if t < |s.tickets| && s.tickets[t] == Ticket(key, false) && success then [now] else []
    case _ => []
  }

  /** The instant of every request of a key that a run accepts, whether or not the limiter still remembers it. */
  function Accepted(cfg: Config, s: System, events: seq<Event>, key: Key): seq<int>
    decreases |events|
  {
    if events == [] then []
    else Adds(cfg, s, events[0], key) + Accepted(cfg, Step(cfg, s, events[0]).0, events[1..], key)
  }

  /** The whole seconds the limiter records for the given instants. */
  function Seconds(log: seq<int>): seq<int> {
    seq(|log|, i requires 0 <= i < |log| => Unix(log[i]))
  }

  // ---- queue and in-flight requests, for every expiration ---------------------------------------

  ghost predicate Fits(s: System, key: Key, limit: int, use: Use) {
    && |Times(s.limiter, key)| + Outstanding(s.tickets, key) <= Bound(limit, use)
    && Outstanding(s.tickets, key) <= Cap(limit)
    && (use.Requests? ==> Outstanding(s.tickets, key) == 0)
  }

  lemma PruneShorterFor(l: State, key: Key, clock: int, now: int, duration: int)
    requires WellFormed(l, clock)
    ensures |Prune(Times(l, key), now, duration)| <= |Times(l, key)|
  {
    assert key in l.store ==> GoodBucket(l.store[key], clock);
    PruneIsSuffix(Times(l, key), now, duration);
  }

  lemma StepFits(cfg: Config, s: System, clock: int, e: Event, key: Key, limit: int, use: Use)
    requires WellFormed(s.limiter, clock) && Counted(s.limiter.reservations, s.tickets)
    requires Fits(s, key, limit, use) && Disciplined(e, key, limit, use)
    ensures Fits(Step(cfg, s, e).0, key, limit, use)
  {
    hide WellFormed, Prune;
    match e
    case Request(k, max, now) =>
      PruneShorterFor(s.limiter, k, clock, Unix(now), cfg.duration(k));
    case Reserve(k, max, now) =>
      PruneShorterFor(s.limiter, k, clock, Unix(now), cfg.duration(k));
      OutstandingAppend(s.tickets, Ticket(k, false), key);
    case Complete(t, success, now) =>
      if t < |s.tickets| && !s.tickets[t].done { OutstandingDone(s.tickets, t, key); }
    case Tick(stamp, now) =>
      if cfg.expiration > 0 { EvictionForgets(s.limiter, clock, stamp, cfg.expiration, key); }
  }

  /** What every state of a run has: shape, exact counters, and room. */
  ghost predicate Sound(s: System, clock: int, key: Key, limit: int, use: Use) {
    WellFormed(s.limiter, clock) && Counted(s.limiter.reservations, s.tickets) && Fits(s, key, limit, use)
  }

  lemma StepSound(cfg: Config, s: System, clock: int, e: Event, key: Key, limit: int, use: Use)
    requires Sound(s, clock, key, limit, use) && clock <= e.now && Disciplined(e, key, limit, use)
    ensures Sound(Step(cfg, s, e).0, e.now, key, limit, use)
  {
    hide WellFormed, Counted, Fits, Disciplined, Step;
    StepFits(cfg, s, clock, e, key, limit, use);
    StepKeepsShape(cfg, s, clock, e);
    StepCounts(cfg, s, clock, e);
  }

  lemma {:induction false} RunSound(cfg: Config, s: System, clock: int, events: seq<Event>,
                                    key: Key, limit: int, use: Use)
    requires Sound(s, clock, key, limit, use) && Timely(events, clock) && AllDisciplined(events, key, limit, use)
    ensures Sound(Run(cfg, s, events).0, EndClock(events, clock), key, limit, use)
    decreases |events|
  {
    hide Sound, Disciplined, Step;
    if events != [] {
      StepSound(cfg, s, clock, events[0], key, limit, use);
      RunSound(cfg, Step(cfg, s, events[0]).0, events[0].now, events[1..], key, limit, use);
    }
  }

  /** Queue plus in-flight requests stay within the bound on every run, whatever the expiration. */
  lemma QueueWithinLimit(cfg: Config, events: seq<Event>, clock: int, key: Key, limit: int, use: Use)
    requires Timely(events, clock) && AllDisciplined(events, key, limit, use)
    ensures var s := Run(cfg, START, events).0;
            |Times(s.limiter, key)| + Outstanding(s.tickets, key) <= Bound(limit, use)
  {
    RunSound(cfg, START, clock, events, key, limit, use);
  }

  /** With a limit that is not positive nothing is ever accepted. */
  lemma {:induction false} NothingAccepted(cfg: Config, s: System, clock: int, events: seq<Event>,
                                           key: Key, limit: int, use: Use)
    requires Sound(s, clock, key, limit, use) && limit <= 0
    requires Timely(events, clock) && AllDisciplined(events, key, limit, use)
    ensures Accepted(cfg, s, events, key) == []
    decreases |events|
  {
    hide Sound, Step, Adds;
    if events != [] {
      StepRefused(cfg, s, clock, events[0], key, limit, use);
      StepSound(cfg, s, clock, events[0], key, limit, use);
      NothingAccepted(cfg, Step(cfg, s, events[0]).0, events[0].now, events[1..], key, limit, use);
    }
  }

  lemma StepRefused(cfg: Config, s: System, clock: int, e: Event, key: Key, limit: int, use: Use)
    requires Sound(s, clock, key, limit, use) && limit <= 0 && Disciplined(e, key, limit, use)
    ensures Adds(cfg, s, e, key) == []
  {
    hide WellFormed, Counted, Prune;
    if e.Complete? && e.ticket < |s.tickets| && s.tickets[e.ticket] == Ticket(key, false) {
      OutstandingDone(s.tickets, e.ticket, key);
    }
  }

  // ---- windows of whole seconds -----------------------------------------------------------------

  lemma {:induction false} SpanAppend(s: seq<int>, x: int, from: int, duration: int)
    ensures Span(s + [x], from, duration) ==
            Span(s, from, duration) + if from <= x < from + duration then [x] else []
  {
    if s != [] {
      SpanAppend(s[1..], x, from, duration);
      assert (s + [x])[1..] == s[1..] + [x];
    }
  }

  lemma {:induction false} SpanWithinLive(s: seq<int>, from: int, now: int, duration: int)
    requires now < from + duration
    ensures |Span(s, from, duration)| <= |LiveTimes(s, now, duration)|
  {
    if s != [] { SpanWithinLive(s[1..], from, now, duration); }
  }

  lemma {:induction false} LiveTimesShorter(s: seq<int>, now: int, duration: int)
    ensures |LiveTimes(s, now, duration)| <= |s|
  {
    if s != [] { LiveTimesShorter(s[1..], now, duration); }
  }

  /** Nothing that still counts has been forgotten, so the queue is at least as long as the window. */
  lemma QueueCoversWindow(log: seq<int>, times: seq<int>, second: int, duration: int)
    requires Forgot(log, times, second, duration)
    ensures |LiveTimes(log, second, duration)| <= |times|
  {
    var dropped := log[..|log| - |times|];
    assert log == dropped + times;
    LiveTimesConcat(dropped, times, second, duration);
    NoneLive(dropped, second, duration);
    LiveTimesShorter(times, second, duration);
  }

  /** One more acceptance keeps every window within the cap when the current one has room. */
  lemma AcceptKeepsWindows(log: seq<int>, second: int, duration: int, cap: nat)
    requires |LiveTimes(log, second, duration)| < cap
    requires Within(log, duration, cap)
    ensures Within(log + [second], duration, cap)
  {
    forall from ensures |Span(log + [second], from, duration)| <= cap {
      SpanAppend(log, second, from, duration);
      if from <= second < from + duration { SpanWithinLive(log, from, second, duration); }
    }
  }

  /** One key's recorded seconds and bucket through a step, when the key outlives its window. */
  lemma StepForgot(cfg: Config, s: System, log: seq<int>, clock: int, e: Event, key: Key)
    requires WellFormed(s.limiter, clock) && clock <= e.now && (e.Tick? ==> e.stamp <= e.now) && Outlives(cfg, key)
    requires Forgot(log, Times(s.limiter, key), Unix(clock), cfg.duration(key))
    ensures Forgot(log + Seconds(Adds(cfg, s, e, key)), Times(Step(cfg, s, e).0.limiter, key), Unix(e.now),
                   cfg.duration(key))
  {
    hide WellFormed, Forgot, Prune, Unix, Outlives;
    var times, second, d := Times(s.limiter, key), Unix(e.now), cfg.duration(key);
    UnixMonotone(clock, e.now);
    ForgotLater(log, times, Unix(clock), second, d);
    KeptIsGood(s.limiter, key, clock, e.now, d);
    PruneCountsLog(log, times, second, d);
    ForgotAppend(log, times, second, d);
    ForgotAppend(log, Prune(times, second, d), second, d);
    assert log + Seconds([]) == log && Seconds([e.now]) == [second];
    if e.Tick? && cfg.expiration > 0 { TickForgot(cfg, s.limiter, log, clock, e.stamp, e.now, key); }
  }

  lemma UnixMonotone(a: int, b: int)
    requires a <= b
    ensures Unix(a) <= Unix(b)
  {}

  lemma ForgotLater(log: seq<int>, times: seq<int>, a: int, b: int, duration: int)
    requires Forgot(log, times, a, duration) && a <= b
    ensures Forgot(log, times, b, duration)
  {}

  lemma StepWithin(cfg: Config, s: System, log: seq<int>, clock: int, e: Event, key: Key, limit: int, use: Use)
    requires Sound(s, clock, key, limit, use) && clock <= e.now && Disciplined(e, key, limit, use)
    requires Forgot(log, Times(s.limiter, key), Unix(clock), cfg.duration(key))
    requires Within(log, cfg.duration(key), Bound(limit, use))
    ensures Within(log + Seconds(Adds(cfg, s, e, key)), cfg.duration(key), Bound(limit, use))
  {
    hide WellFormed, Counted, Forgot, Prune, Within, Unix;
    var times, second, d := Times(s.limiter, key), Unix(e.now), cfg.duration(key);
    assert log + Seconds([]) == log && Seconds([e.now]) == [second];
    if Adds(cfg, s, e, key) == [e.now] {
      UnixMonotone(clock, e.now);
      ForgotLater(log, times, Unix(clock), second, d);
      if e.Request? {
        KeptIsGood(s.limiter, key, clock, e.now, d);
        PruneCountsLog(log, times, second, d);
      } else {
        QueueCoversWindow(log, times, second, d);
        OutstandingDone(s.tickets, e.ticket, key);
      }
      AcceptKeepsWindows(log, second, d, Bound(limit, use));
    }
  }

  lemma {:induction false} RunWithin(cfg: Config, s: System, log: seq<int>, clock: int, events: seq<Event>,
                                     key: Key, limit: int, use: Use)
    requires Sound(s, clock, key, limit, use) && Timely(events, clock) && AllDisciplined(events, key, limit, use)
    requires Within(log, cfg.duration(key), Bound(limit, use)) && Outlives(cfg, key)
    requires Forgot(log, Times(s.limiter, key), Unix(clock), cfg.duration(key))
    ensures Within(log + Seconds(Accepted(cfg, s, events, key)), cfg.duration(key), Bound(limit, use))
    decreases |events|
  {
    hide Sound, WellFormed, Disciplined, Forgot, Within, Adds, Outlives, Step;
    if events == [] {
      assert log + Seconds([]) == log;
    } else {
      var e, s' := events[0], Step(cfg, s, events[0]).0;
      StepSound(cfg, s, clock, e, key, limit, use);
      SoundShape(s, clock, key, limit, use);
      StepForgot(cfg, s, log, clock, e, key);
      StepWithin(cfg, s, log, clock, e, key, limit, use);
      var more, rest := Adds(cfg, s, e, key), Accepted(cfg, s', events[1..], key);
      RunWithin(cfg, s', log + Seconds(more), e.now, events[1..], key, limit, use);
      assert log + Seconds(more) + Seconds(rest) == log + Seconds(more + rest);
    }
  }

  lemma SoundShape(s: System, clock: int, key: Key, limit: int, use: Use)
    requires Sound(s, clock, key, limit, use)
    ensures WellFormed(s.limiter, clock)
  {}

  /** On every run that uses the key as it should, no window of as many whole seconds as the key's duration holds
      more accepted requests than the bound. */
  ghost predicate NoWindowExceeds(cfg: Config, key: Key, limit: int, use: Use) {
    forall events: seq<Event>, clock: int :: Timely(events, clock) && AllDisciplined(events, key, limit, use) ==>
      Within(Seconds(Accepted(cfg, START, events, key)), cfg.duration(key), Bound(limit, use))
  }

  /** That holds exactly when the key outlives its window, or nothing may be accepted anyway. */
  lemma NoWindowExceedsIff(cfg: Config, key: Key, limit: int, use: Use)
    ensures NoWindowExceeds(cfg, key, limit, use) <==> limit <= 0 || Outlives(cfg, key)
  {
    hide Unix, AllDisciplined, Timely, Accepted;
    StartSound(key, limit, use);
    if limit <= 0 || Outlives(cfg, key) {
      forall events: seq<Event>, clock: int | Timely(events, clock) && AllDisciplined(events, key, limit, use)
        ensures Within(Seconds(Accepted(cfg, START, events, key)), cfg.duration(key), Bound(limit, use))
      {
        if limit <= 0 {
          NothingAccepted(cfg, START, clock, events, key, limit, use);
        } else {
          RunWithin(cfg, START, [], clock, events, key, limit, use);
          assert [] + Seconds(Accepted(cfg, START, events, key)) == Seconds(Accepted(cfg, START, events, key));
        }
      }
    } else {
      var plan := Plan(key, limit, use, 0, true, cfg.expiration);
      OverrunShows(cfg, plan);
      EarlySecond(cfg, key);
      var log := Seconds(Accepted(cfg, START, Overrun(plan), key));
      AllInside(log, 0, cfg.duration(key));
      assert |Span(log, 0, cfg.duration(key))| == Bound(limit, use) + 1;
    }
  }

  lemma StartSound(key: Key, limit: int, use: Use)
    ensures forall clock :: Sound(START, clock, key, limit, use)
  {}

  lemma EarlySecond(cfg: Config, key: Key)
    requires !Outlives(cfg, key)
    ensures Unix(0) == 0 <= Unix(cfg.expiration) < cfg.duration(key)
  {}

  /** When nothing is evicted early, the accepted requests are the log of the simple limiter. */
  lemma {:induction false} AcceptedIsLog(cfg: Config, s: System, n: Naive, clock: int, events: seq<Event>, key: Key)
    requires Covers(cfg) && Simulates(cfg, s, n, clock) && Timely(events, clock)
    ensures Log(NaiveRun(cfg, n, events).0, key) == Log(n, key) + Seconds(Accepted(cfg, s, events, key))
    decreases |events|
  {
    hide Simulates, Covers, Step, NaiveStep, Log, Adds, Unix;
    if events == [] {
      assert Log(n, key) + Seconds([]) == Log(n, key);
    } else {
      var e, s', n' := events[0], Step(cfg, s, events[0]).0, NaiveStep(cfg, n, events[0]).0;
      StepSimulates(cfg, s, n, clock, e);
      AcceptedIsLog(cfg, s', n', e.now, events[1..], key);
      AddsIsLogged(cfg, s, n, clock, e, key);
      var more, rest := Adds(cfg, s, e, key), Accepted(cfg, s', events[1..], key);
      assert Log(n, key) + Seconds(more) + Seconds(rest) == Log(n, key) + Seconds(more + rest);
    }
  }

  lemma AddsIsLogged(cfg: Config, s: System, n: Naive, clock: int, e: Event, key: Key)
    requires Simulates(cfg, s, n, clock) && Step(cfg, s, e).1 == NaiveStep(cfg, n, e).1
    ensures Log(NaiveStep(cfg, n, e).0, key) == Log(n, key) + Seconds(Adds(cfg, s, e, key))
  {
    hide WellFormed, Remembers, Counted, RequestStep, ReserveStep, InWindow, Outstanding, Unix;
    assert Seconds([e.now]) == [Unix(e.now)];
    assert Log(n, key) + [] == Log(n, key);
  }

  // ---- windows of clock time --------------------------------------------------------------------

  /** The widest window of clock time, in nanoseconds, that the limiter protects: recording only whole seconds costs
      almost one of them, and evicting an idle key forgets whatever is older than the expiration. */
  function SafeWidth(cfg: Config, key: Key): int {
    var recorded := if cfg.duration(key) <= 0 then 0 else (cfg.duration(key) - 1) * NANOS + 1;
    if 0 < cfg.expiration < recorded then cfg.expiration else recorded
  }

  /** The bucket records the end of the log; whatever it forgot is at least width old. */
  ghost predicate Recalls(log: seq<int>, times: seq<int>, now: int, width: int) {
    && |times| <= |log|
    && times == Seconds(log[|log| - |times|..])
    && forall i :: 0 <= i < |log| - |times| ==> now - log[i] >= width
  }

  /** No accepted request is later than the clock, nor than the last activity of its key. */
  ghost predicate Past(log: seq<int>, l: State, key: Key, clock: int) {
    forall i :: 0 <= i < |log| ==> log[i] <= clock && (key in l.store ==> log[i] <= l.store[key].lastActive)
  }

  lemma RecallsLater(log: seq<int>, times: seq<int>, a: int, b: int, width: int)
    requires Recalls(log, times, a, width) && a <= b
    ensures Recalls(log, times, b, width)
  {}

  lemma RecallsAppend(log: seq<int>, times: seq<int>, now: int, width: int)
    requires Recalls(log, times, now, width)
    ensures Recalls(log + [now], times + [Unix(now)], now, width)
  {
    hide Unix;
    var k := |log| - |times|;
    assert (log + [now])[k..] == log[k..] + [now];
    assert Seconds(log[k..] + [now]) == Seconds(log[k..]) + [Unix(now)];
  }

  /** A second out of the window lies at least the protected width back. */
  lemma ExpiredIsOld(cfg: Config, key: Key, a: int, now: int)
    requires !Live(Unix(now), Unix(a), cfg.duration(key)) && a <= now
    ensures now - a >= SafeWidth(cfg, key)
  {}

  lemma RecallsPruned(cfg: Config, key: Key, log: seq<int>, times: seq<int>, now: int)
    requires Recalls(log, times, now, SafeWidth(cfg, key)) && Sorted(times)
    requires forall i :: 0 <= i < |log| ==> log[i] <= now
    ensures Recalls(log, Prune(times, Unix(now), cfg.duration(key)), now, SafeWidth(cfg, key))
  {
    hide Prune, Sorted, SafeWidth, Unix, Live;
    var kept := Prune(times, Unix(now), cfg.duration(key));
    PruneIsSuffix(times, Unix(now), cfg.duration(key));
    var k, j := |log| - |times|, |log| - |kept|;
    assert forall i :: 0 <= i < |times| ==> times[i] == Unix(log[k + i]);
    assert kept == Seconds(log[j..]);
    forall i | 0 <= i < j ensures now - log[i] >= SafeWidth(cfg, key) {
      if i >= k {
        assert times[i - k] == Unix(log[i]);
        ExpiredIsOld(cfg, key, log[i], now);
      }
    }
  }

  /** One key's accepted instants and bucket through a step, for every expiration. */
  lemma StepRecalls(cfg: Config, s: System, log: seq<int>, clock: int, e: Event, key: Key)
    requires WellFormed(s.limiter, clock) && clock <= e.now && (e.Tick? ==> e.stamp <= e.now)
    requires Recalls(log, Times(s.limiter, key), clock, SafeWidth(cfg, key)) && Past(log, s.limiter, key, clock)
    ensures var s' := Step(cfg, s, e).0;
            Recalls(log + Adds(cfg, s, e, key), Times(s'.limiter, key), e.now, SafeWidth(cfg, key))
  {
    hide WellFormed, Recalls, Prune, SafeWidth, Unix;
    var times, d, w := Times(s.limiter, key), cfg.duration(key), SafeWidth(cfg, key);
    RecallsLater(log, times, clock, e.now, w);
    KeptIsGood(s.limiter, key, clock, e.now, d);
    RecallsPruned(cfg, key, log, times, e.now);
    RecallsAppend(log, times, e.now, w);
    RecallsAppend(log, Prune(times, Unix(e.now), d), e.now, w);
    assert log + [] == log;
    if e.Tick? && cfg.expiration > 0 {
      EvictionForgets(s.limiter, clock, e.stamp, cfg.expiration, key);
      if key in s.limiter.store && Idle(s.limiter.store[key], e.stamp, cfg.expiration) {
        EvictedIsOld(cfg, key, log, s.limiter.store[key].lastActive, e.now);
      }
    }
  }

  lemma EvictedIsOld(cfg: Config, key: Key, log: seq<int>, lastActive: int, now: int)
    requires cfg.expiration > 0 && now - lastActive >= cfg.expiration
    requires forall i :: 0 <= i < |log| ==> log[i] <= lastActive
    ensures Recalls(log, [], now, SafeWidth(cfg, key))
  {
    assert log[|log|..] == [];
  }

  lemma StepPast(cfg: Config, s: System, log: seq<int>, clock: int, e: Event, key: Key)
    requires WellFormed(s.limiter, clock) && clock <= e.now && Past(log, s.limiter, key, clock)
    ensures Past(log + Adds(cfg, s, e, key), Step(cfg, s, e).0.limiter, key, e.now)
  {
    hide WellFormed, Prune, Unix;
    if e.Tick? && cfg.expiration > 0 { EvictionKeeps(s.limiter, clock, e.stamp, cfg.expiration, key); }
  }

  lemma EvictionKeeps(l: State, clock: int, stamp: int, expiration: int, key: Key)
    requires WellFormed(l, clock)
    ensures var t := EvictTail(l, stamp, expiration);
            key in t.store ==> key in l.store && t.store[key] == l.store[key]
  {
    EvictsExactlyIdle(l, clock, stamp, expiration);
  }

  lemma {:induction false} SpanSkips(s: seq<int>, k: nat, from: int, width: int)
    requires k <= |s| && forall i :: 0 <= i < k ==> s[i] < from
    ensures |Span(s, from, width)| <= |s| - k
  {
    if k > 0 {
      SpanSkips(s[1..], k - 1, from, width);
    } else if s != [] {
      SpanSkips(s[1..], 0, from, width);
    }
  }

  /** One more acceptance keeps every window within the cap when the bucket has room. */
  lemma AcceptKeepsWidth(log: seq<int>, times: seq<int>, now: int, safe: int, width: int, cap: nat)
    requires Recalls(log, times, now, safe) && width <= safe && |times| < cap && Within(log, width, cap)
    ensures Within(log + [now], width, cap)
  {
    forall from ensures |Span(log + [now], from, width)| <= cap {
      SpanAppend(log, now, from, width);
      if from <= now < from + width { SpanSkips(log, |log| - |times|, from, width); }
    }
  }

  lemma StepWidth(cfg: Config, s: System, log: seq<int>, clock: int, e: Event, key: Key, limit: int, use: Use,
                  width: int)
    requires Sound(s, clock, key, limit, use) && clock <= e.now && Disciplined(e, key, limit, use)
    requires Recalls(log, Times(s.limiter, key), clock, SafeWidth(cfg, key)) && Past(log, s.limiter, key, clock)
    requires width <= SafeWidth(cfg, key) && Within(log, width, Bound(limit, use))
    ensures Within(log + Adds(cfg, s, e, key), width, Bound(limit, use))
  {
    hide WellFormed, Counted, Recalls, Prune, Within, Unix, SafeWidth;
    var times, d, w := Times(s.limiter, key), cfg.duration(key), SafeWidth(cfg, key);
    assert log + [] == log;
    if Adds(cfg, s, e, key) == [e.now] {
      RecallsLater(log, times, clock, e.now, w);
      if e.Request? {
        KeptIsGood(s.limiter, key, clock, e.now, d);
        RecallsPruned(cfg, key, log, times, e.now);
        AcceptKeepsWidth(log, Prune(times, Unix(e.now), d), e.now, w, width, Bound(limit, use));
      } else {
        OutstandingDone(s.tickets, e.ticket, key);
        AcceptKeepsWidth(log, times, e.now, w, width, Bound(limit, use));
      }
    }
  }

  lemma {:induction false} RunWidth(cfg: Config, s: System, log: seq<int>, clock: int, events: seq<Event>,
                                    key: Key, limit: int, use: Use, width: int)
    requires Sound(s, clock, key, limit, use) && Timely(events, clock) && AllDisciplined(events, key, limit, use)
    requires Recalls(log, Times(s.limiter, key), clock, SafeWidth(cfg, key)) && Past(log, s.limiter, key, clock)
    requires width <= SafeWidth(cfg, key) && Within(log, width, Bound(limit, use))
    ensures Within(log + Accepted(cfg, s, events, key), width, Bound(limit, use))
    decreases |events|
  {
    hide Sound, WellFormed, Disciplined, Recalls, Past, Within, Adds, Step, SafeWidth;
    if events == [] {
      assert log + [] == log;
    } else {
      var e, s' := events[0], Step(cfg, s, events[0]).0;
      StepSound(cfg, s, clock, e, key, limit, use);
      SoundShape(s, clock, key, limit, use);
      StepRecalls(cfg, s, log, clock, e, key);
      StepPast(cfg, s, log, clock, e, key);
      StepWidth(cfg, s, log, clock, e, key, limit, use, width);
      var more, rest := Adds(cfg, s, e, key), Accepted(cfg, s', events[1..], key);
      RunWidth(cfg, s', log + more, e.now, events[1..], key, limit, use, width);
      assert log + more + rest == log + (more + rest);
    }
  }

  /** On every run that uses the key as it should, no window of that many nanoseconds holds more accepted requests
      than the bound. */
  ghost predicate WidthProtected(cfg: Config, key: Key, limit: int, use: Use, width: int) {
    forall events: seq<Event>, clock: int :: Timely(events, clock) && AllDisciplined(events, key, limit, use) ==>
      Within(Accepted(cfg, START, events, key), width, Bound(limit, use))
  }

  /** The protected widths are exactly those up to the safe one, whatever the duration and the expiration. */
  lemma WidthProtectedIff(cfg: Config, key: Key, limit: int, use: Use, width: int)
    ensures WidthProtected(cfg, key, limit, use, width) <==> limit <= 0 || width <= SafeWidth(cfg, key)
  {
    hide Unix, AllDisciplined, Timely, Accepted, SafeWidth;
    StartSound(key, limit, use);
    if limit <= 0 || width <= SafeWidth(cfg, key) {
      forall events: seq<Event>, clock: int | Timely(events, clock) && AllDisciplined(events, key, limit, use)
        ensures Within(Accepted(cfg, START, events, key), width, Bound(limit, use))
      {
        if limit <= 0 {
          NothingAccepted(cfg, START, clock, events, key, limit, use);
        } else {
          RunWidth(cfg, START, [], clock, events, key, limit, use, width);
          assert [] + Accepted(cfg, START, events, key) == Accepted(cfg, START, events, key);
        }
      }
    } else {
      var plan := WidthPlan(cfg, key, limit, use);
      WidthPlanFits(cfg, key, limit, use, width);
      OverrunShows(cfg, plan);
      var log := Accepted(cfg, START, Overrun(plan), key);
      AllInside(log, plan.first, width);
      assert |Span(log, plan.first, width)| == Bound(limit, use) + 1;
    }
  }

  /** Without evictions two requests just over duration - 1 seconds apart can be in different windows. */
  function WidthPlan(cfg: Config, key: Key, limit: int, use: Use): Plan {
    var d := cfg.duration(key);
    if d <= 0 then Plan(key, limit, use, 0, false, 0)
    else if 0 < cfg.expiration < (d - 1) * NANOS + 1 then Plan(key, limit, use, 0, true, cfg.expiration)
    else Plan(key, limit, use, NANOS - 1, false, d * NANOS)
  }

  lemma WidthPlanFits(cfg: Config, key: Key, limit: int, use: Use, width: int)
    requires limit > 0 && width > SafeWidth(cfg, key)
    ensures var plan := WidthPlan(cfg, key, limit, use);
            Works(cfg, plan) && plan.first <= plan.last < plan.first + width
  {}

  // ---- a run that accepts too many --------------------------------------------------------------

  /** Fill the bound at the first instant, sweep if asked to, and accept once more at the last. */
  datatype Plan = Plan(key: Key, limit: int, use: Use, first: int, sweep: bool, last: int)

  /** The first requests have left the bucket at the last instant. */
  ghost predicate Works(cfg: Config, plan: Plan) {
    && plan.limit > 0 && plan.first <= plan.last
    && if plan.sweep then 0 < cfg.expiration <= plan.last - plan.first
       else Unix(plan.last) - Unix(plan.first) >= cfg.duration(plan.key)
  }

  function Reserved(plan: Plan): nat {
    if plan.use.Requests? then 0 else Cap(plan.limit)
  }

  function Requested(plan: Plan): nat {
    if plan.use.Reservations? then 0 else Cap(plan.limit)
  }

  /** Reserve the limit, request the limit, complete the reservations; each as far as the use has it. */
  function Fill(plan: Plan, reserve: nat, request: nat, complete: nat): seq<Event>
    decreases reserve, request, complete
  {
    if reserve > 0 then [Reserve(plan.key, plan.limit, plan.first)] + Fill(plan, reserve - 1, request, complete)
    else if request > 0 then [Request(plan.key, plan.limit, plan.first)] + Fill(plan, 0, request - 1, complete)
    else if complete > 0 then
      [Complete(if complete <= Reserved(plan) then Reserved(plan) - complete else 0, true, plan.first)] +
      Fill(plan, 0, 0, complete - 1)
    else []
  }

  function LastRound(plan: Plan): seq<Event> {
    if plan.use.Reservations?
    then [Reserve(plan.key, plan.limit, plan.last)] + [Complete(Reserved(plan), true, plan.last)]
    else [Request(plan.key, plan.limit, plan.last)]
  }

  function Overrun(plan: Plan): seq<Event> {
    Fill(plan, Reserved(plan), Requested(plan), Reserved(plan)) +
    ((if plan.sweep then [Tick(plan.last, plan.last)] else []) + LastRound(plan))
  }

  function Repeat(x: int, n: nat): seq<int> {
    seq(n, _ => x)
  }

  /** done finished tickets of the key, then open ones. */
  function Tickets(key: Key, done: nat, open: nat): seq<Ticket> {
    seq(done, _ => Ticket(key, true)) + seq(open, _ => Ticket(key, false))
  }

  /** At the first instant: at most recorded requests in the bucket, exactly that many if they stay in the window. */
  ghost predicate Staged(cfg: Config, s: System, plan: Plan, recorded: nat, done: nat, open: nat) {
    && WellFormed(s.limiter, plan.first) && Counted(s.limiter.reservations, s.tickets)
    && s.tickets == Tickets(plan.key, done, open) && Outstanding(s.tickets, plan.key) == open
    && Recorded(cfg, s.limiter, plan.key, plan.first, recorded)
  }

  ghost predicate Recorded(cfg: Config, l: State, key: Key, first: int, recorded: nat) {
    && |Times(l, key)| <= recorded && (cfg.duration(key) > 0 ==> |Times(l, key)| == recorded)
    && (forall i :: 0 <= i < |Times(l, key)| ==> Times(l, key)[i] == Unix(first))
    && (key in l.store ==> l.store[key].lastActive == first)
  }

  lemma {:induction false} AllInside(s: seq<int>, from: int, width: int)
    requires forall i :: 0 <= i < |s| ==> from <= s[i] < from + width
    ensures Span(s, from, width) == s
  {
    if s != [] { AllInside(s[1..], from, width); }
  }

  lemma {:induction false} AcceptedConcat(cfg: Config, s: System, a: seq<Event>, b: seq<Event>, key: Key)
    ensures Accepted(cfg, s, a + b, key) == Accepted(cfg, s, a, key) + Accepted(cfg, Run(cfg, s, a).0, b, key)
    decreases |a|
  {
    if a == [] {
      assert a + b == b;
    } else {
      assert (a + b)[1..] == a[1..] + b;
      AcceptedConcat(cfg, Step(cfg, s, a[0]).0, a[1..], b, key);
    }
  }

  lemma {:induction false} TimelyConcat(a: seq<Event>, b: seq<Event>, clock: int)
    requires Timely(a, clock) && Timely(b, EndClock(a, clock))
    ensures Timely(a + b, clock)
    decreases |a|
  {
    if a == [] {
      assert a + b == b;
    } else {
      assert (a + b)[1..] == a[1..] + b;
      TimelyConcat(a[1..], b, a[0].now);
    }
  }

  lemma Cons(cfg: Config, s: System, e: Event, rest: seq<Event>, key: Key)
    ensures var t := Step(cfg, s, e).0;
            Accepted(cfg, s, [e] + rest, key) == Adds(cfg, s, e, key) + Accepted(cfg, t, rest, key) &&
            Run(cfg, s, [e] + rest).0 == Run(cfg, t, rest).0
    ensures forall clock :: Timely([e] + rest, clock) <==>
              clock <= e.now && (e.Tick? ==> e.stamp <= e.now) && Timely(rest, e.now)
    ensures forall clock :: EndClock([e] + rest, clock) == EndClock(rest, e.now)
    ensures forall key, limit, use :: AllDisciplined([e] + rest, key, limit, use) <==>
              Disciplined(e, key, limit, use) && AllDisciplined(rest, key, limit, use)
  {
    hide Step, Adds, Disciplined;
    assert ([e] + rest)[1..] == rest;
    forall key, limit, use
      ensures AllDisciplined([e] + rest, key, limit, use) <==>
              Disciplined(e, key, limit, use) && AllDisciplined(rest, key, limit, use)
    {
      if AllDisciplined([e] + rest, key, limit, use) {
        assert ([e] + rest)[0] == e;
        forall i | 0 <= i < |rest| ensures Disciplined(rest[i], key, limit, use) {
          assert ([e] + rest)[i + 1] == rest[i];
        }
      }
    }
  }

  lemma PruneSame(times: seq<int>, second: int, now: int, duration: int)
    requires forall i :: 0 <= i < |times| ==> times[i] == second
    ensures Prune(times, now, duration) == if Live(now, second, duration) then times else []
  {}

  lemma {:induction false} OutstandingOf(key: Key, done: nat, open: nat)
    ensures Outstanding(Tickets(key, done, open), key) == open
    decreases done + open
  {
    var all := Tickets(key, done, open);
    if done > 0 {
      assert all[1..] == Tickets(key, done - 1, open);
      OutstandingOf(key, done - 1, open);
    } else if open > 0 {
      assert all[1..] == Tickets(key, 0, open - 1);
      OutstandingOf(key, 0, open - 1);
    }
  }

  lemma StageReserve(cfg: Config, s: System, plan: Plan, recorded: nat, done: nat, open: nat)
    requires Staged(cfg, s, plan, recorded, done, open) && recorded + open < plan.limit
    ensures Staged(cfg, Step(cfg, s, Reserve(plan.key, plan.limit, plan.first)).0, plan, recorded, done, open + 1)
  {
    hide WellFormed, Counted, Prune, Unix;
    var e, key := Reserve(plan.key, plan.limit, plan.first), plan.key;
    PruneSame(Times(s.limiter, key), Unix(plan.first), Unix(plan.first), cfg.duration(key));
    InFlight(s, key);
    StepKeepsShape(cfg, s, plan.first, e);
    StepCounts(cfg, s, plan.first, e);
    assert Tickets(key, done, open) + [Ticket(key, false)] == Tickets(key, done, open + 1);
    OutstandingOf(key, done, open + 1);
  }

  lemma InFlight(s: System, key: Key)
    requires Counted(s.limiter.reservations, s.tickets)
    ensures Get(s.limiter.reservations, key) == Outstanding(s.tickets, key)
  {}

  lemma StageRequest(cfg: Config, s: System, plan: Plan, recorded: nat, done: nat, open: nat)
    requires Staged(cfg, s, plan, recorded, done, open) && recorded < plan.limit
    ensures var e := Request(plan.key, plan.limit, plan.first);
            Staged(cfg, Step(cfg, s, e).0, plan, recorded + 1, done, open) && Adds(cfg, s, e, plan.key) == [plan.first]
  {
    hide WellFormed, Counted, Prune, Unix, Outstanding;
    var e, key := Request(plan.key, plan.limit, plan.first), plan.key;
    PruneSame(Times(s.limiter, key), Unix(plan.first), Unix(plan.first), cfg.duration(key));
    StepKeepsShape(cfg, s, plan.first, e);
    StepCounts(cfg, s, plan.first, e);
  }

  lemma StageComplete(cfg: Config, s: System, plan: Plan, recorded: nat, done: nat, open: nat)
    requires Staged(cfg, s, plan, recorded, done, open) && open > 0
    ensures var e := Complete(done, true, plan.first);
            Staged(cfg, Step(cfg, s, e).0, plan, recorded + 1, done + 1, open - 1) &&
            Adds(cfg, s, e, plan.key) == [plan.first]
  {
    hide WellFormed, Counted, Unix, Outstanding;
    var e, key := Complete(done, true, plan.first), plan.key;
    StepKeepsShape(cfg, s, plan.first, e);
    StepCounts(cfg, s, plan.first, e);
    assert Tickets(key, done, open)[done := Ticket(key, true)] == Tickets(key, done + 1, open - 1);
    OutstandingOf(key, done + 1, open - 1);
  }

  /** Every event of the fill is accepted. */
  lemma {:induction false} FillStages(cfg: Config, s: System, plan: Plan, reserve: nat, request: nat, complete: nat)
    requires plan.limit > 0 && reserve <= Reserved(plan) && request <= Requested(plan) && complete <= Reserved(plan)
    requires (reserve > 0 ==> request == Requested(plan)) && (reserve + request > 0 ==> complete == Reserved(plan))
    requires Staged(cfg, s, plan, Requested(plan) - request + Reserved(plan) - complete, Reserved(plan) - complete,
                    complete - reserve)
    ensures var events := Fill(plan, reserve, request, complete);
            Staged(cfg, Run(cfg, s, events).0, plan, Bound(plan.limit, plan.use), Reserved(plan), 0) &&
            Accepted(cfg, s, events, plan.key) == Repeat(plan.first, request + complete) &&
            Timely(events, plan.first) && EndClock(events, plan.first) == plan.first &&
            AllDisciplined(events, plan.key, plan.limit, plan.use)
    decreases reserve, request, complete
  {
    hide Staged, Step, Run, Accepted, Timely, AllDisciplined, EndClock, Adds;
    var key, first := plan.key, plan.first;
    var recorded := Requested(plan) - request + Reserved(plan) - complete;
    if reserve > 0 {
      var e := Reserve(key, plan.limit, first);
      StageReserve(cfg, s, plan, recorded, Reserved(plan) - complete, complete - reserve);
      FillStages(cfg, Step(cfg, s, e).0, plan, reserve - 1, request, complete);
      Cons(cfg, s, e, Fill(plan, reserve - 1, request, complete), key);
      NoAdds(cfg, s, e, key);
    } else if request > 0 {
      var e := Request(key, plan.limit, first);
      StageRequest(cfg, s, plan, recorded, Reserved(plan) - complete, complete);
      FillStages(cfg, Step(cfg, s, e).0, plan, 0, request - 1, complete);
      Cons(cfg, s, e, Fill(plan, 0, request - 1, complete), key);
      assert [first] + Repeat(first, request - 1 + complete) == Repeat(first, request + complete);
    } else if complete > 0 {
      var e := Complete(Reserved(plan) - complete, true, first);
      StageComplete(cfg, s, plan, recorded, Reserved(plan) - complete, complete);
      FillStages(cfg, Step(cfg, s, e).0, plan, 0, 0, complete - 1);
      Cons(cfg, s, e, Fill(plan, 0, 0, complete - 1), key);
      assert [first] + Repeat(first, complete - 1) == Repeat(first, complete);
    } else {
      NoEvents(cfg, s, plan);
    }
  }

  lemma NoAdds(cfg: Config, s: System, e: Event, key: Key)
    requires e.Reserve? || e.Tick?
    ensures Adds(cfg, s, e, key) == []
  {}

  lemma NoEvents(cfg: Config, s: System, plan: Plan)
    ensures Run(cfg, s, []).0 == s && Accepted(cfg, s, [], plan.key) == Repeat(plan.first, 0)
    ensures Timely([], plan.first) && EndClock([], plan.first) == plan.first
    ensures AllDisciplined([], plan.key, plan.limit, plan.use)
  {}

  lemma LastRoundAccepts(cfg: Config, s: System, plan: Plan)
    requires plan.limit > 0 && Prune(Times(s.limiter, plan.key), Unix(plan.last), cfg.duration(plan.key)) == []
    requires Get(s.limiter.reservations, plan.key) == 0 && |s.tickets| == Reserved(plan)
    ensures Accepted(cfg, s, LastRound(plan), plan.key) == [plan.last] && Timely(LastRound(plan), plan.last)
    ensures AllDisciplined(LastRound(plan), plan.key, plan.limit, plan.use)
  {
    hide Prune, Unix, PutBucket, Accepted, Timely, AllDisciplined;
    var key, last := plan.key, plan.last;
    if plan.use.Reservations? {
      var reserve, complete := Reserve(key, plan.limit, last), Complete(Reserved(plan), true, last);
      var t := Step(cfg, s, reserve).0;
      assert t.tickets[Reserved(plan)] == Ticket(key, false);
      Cons(cfg, s, reserve, [complete], key);
      assert [complete] + [] == [complete];
      Cons(cfg, t, complete, [], key);
      NoEvents(cfg, Step(cfg, t, complete).0, plan.(first := last));
    } else {
      var request := Request(key, plan.limit, last);
      assert [request] + [] == [request];
      Cons(cfg, s, request, [], key);
      NoEvents(cfg, Step(cfg, s, request).0, plan.(first := last));
    }
  }

  lemma SweepEmpties(cfg: Config, s: System, plan: Plan, recorded: nat, done: nat)
    requires Works(cfg, plan) && plan.sweep && Staged(cfg, s, plan, recorded, done, 0)
    ensures var t := Step(cfg, s, Tick(plan.last, plan.last)).0;
            Times(t.limiter, plan.key) == [] &&
            t.limiter.reservations == s.limiter.reservations && t.tickets == s.tickets
  {
    hide WellFormed, Counted, Unix;
    EvictsExactlyIdle(s.limiter, plan.first, plan.last, cfg.expiration);
  }

  lemma TailAccepts(cfg: Config, s: System, plan: Plan, recorded: nat)
    requires Works(cfg, plan) && Staged(cfg, s, plan, recorded, Reserved(plan), 0)
    ensures var tail := (if plan.sweep then [Tick(plan.last, plan.last)] else []) + LastRound(plan);
            Accepted(cfg, s, tail, plan.key) == [plan.last] && Timely(tail, plan.first) &&
            AllDisciplined(tail, plan.key, plan.limit, plan.use)
  {
    hide WellFormed, Counted, Accepted, Timely, AllDisciplined, Step, LastRound, Unix, Prune;
    var key, last := plan.key, plan.last;
    InFlight(s, key);
    if plan.sweep {
      var tick := Tick(last, last);
      var t := Step(cfg, s, tick).0;
      SweepEmpties(cfg, s, plan, recorded, Reserved(plan));
      PruneSame(Times(t.limiter, key), 0, Unix(last), cfg.duration(key));
      LastRoundAccepts(cfg, t, plan);
      Cons(cfg, s, tick, LastRound(plan), key);
      NoAdds(cfg, s, tick, key);
    } else {
      PruneSame(Times(s.limiter, key), Unix(plan.first), Unix(last), cfg.duration(key));
      LastRoundAccepts(cfg, s, plan);
      TimelyEarlier(LastRound(plan), plan.first, last);
      assert [] + LastRound(plan) == LastRound(plan);
    }
  }

  lemma TimelyEarlier(events: seq<Event>, a: int, b: int)
    requires Timely(events, b) && a <= b
    ensures Timely(events, a)
  {}

  lemma StartStaged(cfg: Config, plan: Plan)
    ensures Staged(cfg, START, plan, 0, 0, 0)
  {
    assert Tickets(plan.key, 0, 0) == [];
  }

  /** More than the bound is accepted, all within [first, last]. */
  lemma OverrunShows(cfg: Config, plan: Plan)
    requires Works(cfg, plan)
    ensures Timely(Overrun(plan), plan.first) && AllDisciplined(Overrun(plan), plan.key, plan.limit, plan.use)
    ensures Accepted(cfg, START, Overrun(plan), plan.key) ==
            Repeat(plan.first, Bound(plan.limit, plan.use)) + [plan.last]
  {
    hide Works, Staged, Accepted, Timely, Run, Unix, LastRound, Fill, EndClock, Disciplined;
    WorksLimit(cfg, plan);
    StartStaged(cfg, plan);
    var fill := Fill(plan, Reserved(plan), Requested(plan), Reserved(plan));
    var tail := (if plan.sweep then [Tick(plan.last, plan.last)] else []) + LastRound(plan);
    FillStages(cfg, START, plan, Reserved(plan), Requested(plan), Reserved(plan));
    TailAccepts(cfg, Run(cfg, START, fill).0, plan, Bound(plan.limit, plan.use));
    AcceptedConcat(cfg, START, fill, tail, plan.key);
    TimelyConcat(fill, tail, plan.first);
  }

  lemma WorksLimit(cfg: Config, plan: Plan)
    requires Works(cfg, plan)
    ensures plan.limit > 0
  {}

  /** With limit 1 and a window of one second, two requests on either side of a full second are both accepted. */
  lemma OneNanosecondApart(cfg: Config, key: Key)
    requires cfg.duration(key) == 1
    ensures var events := [Request(key, 1, NANOS - 1)] + [Request(key, 1, NANOS)];
            Timely(events, 0) && Accepted(cfg, START, events, key) == [NANOS - 1, NANOS]
  {
    hide Timely, Accepted, AllDisciplined;
    var plan := Plan(key, 1, Requests, NANOS - 1, false, NANOS);
    OverrunShows(cfg, plan);
    assert Fill(plan, 0, 1, 0) == [Request(key, 1, NANOS - 1)] + Fill(plan, 0, 0, 0);
    assert Overrun(plan) == [Request(key, 1, NANOS - 1)] + [Request(key, 1, NANOS)];
    TimelyEarlier(Overrun(plan), 0, NANOS - 1);
    assert Repeat(NANOS - 1, 1) + [NANOS] == [NANOS - 1, NANOS];
  }

  /** The bound on queue and in-flight requests is reached, at twice the limit when a key is used in both ways. */
  lemma QueueReachesBound(cfg: Config, key: Key, limit: int, use: Use, now: int)
    requires limit > 0 && cfg.duration(key) > 0
    ensures var events := Fill(Plan(key, limit, use, now, false, now), if use.Requests? then 0 else limit,
                               if use.Reservations? then 0 else limit, if use.Requests? then 0 else limit);
            var s := Run(cfg, START, events).0;
            Timely(events, now) && AllDisciplined(events, key, limit, use) &&
            |Times(s.limiter, key)| + Outstanding(s.tickets, key) == Bound(limit, use)
  {
    hide WellFormed, Counted, Run, Timely, Fill, Unix, Disciplined, Accepted;
    var plan := Plan(key, limit, use, now, false, now);
    StartStaged(cfg, plan);
    FillStages(cfg, START, plan, Reserved(plan), Requested(plan), Reserved(plan));
  }
}
