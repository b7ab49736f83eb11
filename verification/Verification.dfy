/**
 Verification codes in a map that is swept only when it has grown.

 Times are nanoseconds. A code is stored under its purpose followed by its key.
 */
module Verification {
  import opened Basics

  const MAX_SIZE := 10

  datatype Value = Value(code: string, time: int)

  type Store = map<string, Value>

  /** Whole seconds of a duration, truncated toward zero. */
  function Seconds(d: int): int {
    if d >= 0 then d / NANOS else -((-d) / NANOS)
  }

  /** minutes is the configured validity. */
  predicate Expired(v: Value, now: int, minutes: int) {
    Seconds(now - v.time) >= minutes * 60
  }

  function Sweep(s: Store, now: int, minutes: int): Store {
    map k | k in s && !Expired(s[k], now, minutes) :: s[k]
  }

  /** sweepAt is the clock read by the sweep, after the registration's own. */
  datatype Event =
    | Register(purpose: string, key: string, code: string, now: int, sweepAt: int)
    | Verify(purpose: string, key: string, code: string, now: int)
    | Delete(purpose: string, key: string, now: int)

  function Step(s: Store, e: Event, minutes: int): (Store, bool) {
    match e
    case Register(p, k, code, now, sweepAt) =>
      var t := s[p + k := Value(code, now)];
      (if |t| > MAX_SIZE then Sweep(t, sweepAt, minutes) else t, true)
    case Verify(p, k, code, now) =>
      (s, p + k in s && !Expired(s[p + k], now, minutes) && code == s[p + k].code)
    case Delete(p, k, _) => (s - {p + k}, true)
  }

  function Run(s: Store, events: seq<Event>, minutes: int): (Store, seq<bool>) {
    if events == [] then (s, [])
    else
      var n := |events| - 1;
      var (t, answers) := Run(s, events[..n], minutes);
      var (u, a) := Step(t, events[n], minutes);
      (u, answers + [a])
  }

  // ---- the reference: the history itself --------------------------------------------------------

  /** The latest registration for this purpose and key that was not deleted since. */
  function Current(history: seq<Event>, purpose: string, key: string): Option<Value> {
    if history == [] then None
    else
      var n := |history| - 1;
      var e := history[n];
      if !e.Verify? && e.purpose == purpose && e.key == key
      then if e.Register? then Some(Value(e.code, e.now)) else None
      else Current(history[..n], purpose, key)
  }

  predicate Accepts(history: seq<Event>, purpose: string, key: string, code: string, now: int, minutes: int) {
    var c := Current(history, purpose, key);
    c.Some? && !Expired(c.value, now, minutes) && c.value.code == code
  }

  /** What every answer should be. */
  predicate Agrees(history: seq<Event>, e: Event, answer: bool, minutes: int) {
    answer == (e.Verify? ==> Accepts(history, e.purpose, e.key, e.code, e.now, minutes))
  }

  function Clock(e: Event): int {
    if e.Register? then e.sweepAt else e.now
  }

  /** The clock never goes back, and only the given purposes are used. */
  ghost predicate Timely(events: seq<Event>, purposes: set<string>) {
    && (forall i :: 0 <= i < |events| ==> events[i].purpose in purposes && events[i].now <= Clock(events[i]))
    && (forall i, j :: 0 <= i < j < |events| ==> Clock(events[i]) <= events[j].now)
  }

  /** No purpose is the beginning of another. */
  ghost predicate PrefixFree(purposes: set<string>) {
    forall p, q :: p in purposes && q in purposes && p <= q ==> p == q
  }

  lemma ConcatInjective(purposes: set<string>, p: string, k: string, q: string, l: string)
    requires PrefixFree(purposes) && p in purposes && q in purposes && p + k == q + l
    ensures p == q && k == l
  {
    PrefixesComparable(p, k, q, l);
    assert k == (p + k)[|p|..] && l == (q + l)[|q|..];
  }

  lemma PrefixesComparable(p: string, k: string, q: string, l: string)
    requires p + k == q + l
    ensures p <= q || q <= p
  {
    if |p| <= |q| {
      assert p == (p + k)[..|p|] == (q + l)[..|p|] == q[..|p|];
    } else {
      assert q == (q + l)[..|q|] == (p + k)[..|q|] == p[..|q|];
    }
  }

  /** A stored value is the current one; a current one that is not stored has expired. */
  ghost predicate Tracks(s: Store, c: Option<Value>, id: string, clock: int, minutes: int) {
    && (id in s ==> c == Some(s[id]))
    && (c.Some? ==> c.value.time <= clock && (id in s || Expired(c.value, clock, minutes)))
  }

  lemma ExpiredStays(v: Value, a: int, b: int, minutes: int)
    requires Expired(v, a, minutes) && v.time <= a <= b
    ensures Expired(v, b, minutes)
  {}

  lemma StepTracks(s: Store, history: seq<Event>, e: Event, purposes: set<string>, p: string, k: string,
                   clock: int, minutes: int)
    requires PrefixFree(purposes) && e.purpose in purposes && p in purposes
    requires clock <= e.now <= Clock(e)
    requires Tracks(s, Current(history, p, k), p + k, clock, minutes)
    ensures Tracks(Step(s, e, minutes).0, Current(history + [e], p, k), p + k, Clock(e), minutes)
  {
    assert (history + [e])[..|history|] == history;
    var c := Current(history, p, k);
    if c.Some? && Expired(c.value, clock, minutes) { ExpiredStays(c.value, clock, Clock(e), minutes); }
    if e.purpose + e.key == p + k { ConcatInjective(purposes, e.purpose, e.key, p, k); }
  }

  /** With prefix-free purposes, lazy sweeping never changes an answer. */
  lemma {:induction false} RunTracks(events: seq<Event>, purposes: set<string>, minutes: int)
    requires PrefixFree(purposes) && Timely(events, purposes)
    ensures var answers := Run(map[], events, minutes).1;
            |answers| == |events| &&
            forall i :: 0 <= i < |events| ==> Agrees(events[..i], events[i], answers[i], minutes)
    ensures forall p, k :: p in purposes ==>
              Tracks(Run(map[], events, minutes).0, Current(events, p, k), p + k,
                     if events == [] then 0 else Clock(events[|events| - 1]), minutes)
  {
    hide Tracks, Agrees;
    if events == [] {
      NothingTracked(minutes);
    } else {
      var n := |events| - 1;
      var front, e := events[..n], events[n];
      TimelyPrefix(events, purposes);
      RunTracks(front, purposes, minutes);
      var (s, answers) := Run(map[], front, minutes);
      var clock := if front == [] then 0 else Clock(front[n - 1]);
      assert events == front + [e];
      forall i | 0 <= i < n ensures Agrees(events[..i], events[i], (answers + [Step(s, e, minutes).1])[i], minutes) {
        assert events[..i] == front[..i];
      }
      StepAgrees(s, front, e, purposes, clock, minutes);
      forall p, k | p in purposes
        ensures Tracks(Step(s, e, minutes).0, Current(events, p, k), p + k, Clock(e), minutes)
      {
        if front == [] { TracksAnyClock(s, Current(front, p, k), p + k, minutes, e.now); }
        StepTracks(s, front, e, purposes, p, k, if front == [] then e.now else clock, minutes);
      }
    }
  }

  lemma NothingTracked(minutes: int)
    ensures forall p, k :: Tracks(map[], Current([], p, k), p + k, 0, minutes)
  {}

  lemma TracksAnyClock(s: Store, c: Option<Value>, id: string, minutes: int, clock: int)
    requires Tracks(s, c, id, 0, minutes) && c.None?
    ensures Tracks(s, c, id, clock, minutes)
  {}

  lemma TimelyPrefix(events: seq<Event>, purposes: set<string>)
    requires Timely(events, purposes) && events != []
    ensures Timely(events[..|events| - 1], purposes)
  {}

  lemma StepAgrees(s: Store, history: seq<Event>, e: Event, purposes: set<string>, clock: int, minutes: int)
    requires e.purpose in purposes && (history != [] ==> clock <= e.now)
    requires forall p, k :: p in purposes ==> Tracks(s, Current(history, p, k), p + k, clock, minutes)
    ensures Agrees(history, e, Step(s, e, minutes).1, minutes)
  {}

  ghost predicate Invisible(purposes: set<string>, minutes: int) {
    forall events: seq<Event> :: Timely(events, purposes) ==>
      var answers := Run(map[], events, minutes).1;
      |answers| == |events| && forall i :: 0 <= i < |events| ==> Agrees(events[..i], events[i], answers[i], minutes)
  }

  /** A code that is valid for no time at all is never accepted, stored or remembered. */
  lemma {:induction false} NeverAccepts(events: seq<Event>, purposes: set<string>, minutes: int)
    requires minutes <= 0 && Timely(events, purposes)
    ensures var answers := Run(map[], events, minutes).1;
            |answers| == |events| &&
            forall i :: 0 <= i < |events| ==> Agrees(events[..i], events[i], answers[i], minutes)
    ensures var s := Run(map[], events, minutes).0;
            forall id :: id in s ==> events != [] && s[id].time <= Clock(events[|events| - 1])
  {
    hide Agrees;
    if events != [] {
      var n := |events| - 1;
      var front, e := events[..n], events[n];
      TimelyPrefix(events, purposes);
      NeverAccepts(front, purposes, minutes);
      var (s, answers) := Run(map[], front, minutes);
      forall i | 0 <= i < n ensures Agrees(events[..i], events[i], (answers + [Step(s, e, minutes).1])[i], minutes) {
        assert events[..i] == front[..i];
      }
      assert front != [] ==> Clock(front[n - 1]) == Clock(events[n - 1]) <= e.now;
      RefusesAlways(s, front, e, purposes, minutes);
    }
  }

  lemma RefusesAlways(s: Store, front: seq<Event>, e: Event, purposes: set<string>, minutes: int)
    requires minutes <= 0 && Timely(front + [e], purposes)
    requires forall id :: id in s ==> s[id].time <= e.now
    ensures Agrees(front, e, Step(s, e, minutes).1, minutes)
  {
    CurrentIsPast(front, e, purposes);
  }

  lemma {:induction false} CurrentIsPast(front: seq<Event>, e: Event, purposes: set<string>)
    requires Timely(front + [e], purposes)
    ensures var c := Current(front, e.purpose, e.key); c.Some? ==> c.value.time <= e.now
    decreases |front|
  {
    if front != [] {
      var n, all := |front| - 1, front + [e];
      assert all[n] == front[n] && all[n + 1] == e;
      assert forall i :: 0 <= i < n ==> (front[..n] + [e])[i] == all[i];
      CurrentIsPast(front[..n], e, purposes);
    }
  }

  /** Storing codes under purpose followed by key is faithful exactly for prefix-free purposes, or when codes
      are never valid. */
  lemma InvisibleIffPrefixFree(purposes: set<string>, minutes: int)
    ensures Invisible(purposes, minutes) <==> PrefixFree(purposes) || minutes <= 0
  {
    if minutes <= 0 {
      forall events | Timely(events, purposes)
        ensures var answers := Run(map[], events, minutes).1;
                |answers| == |events| &&
                forall i :: 0 <= i < |events| ==> Agrees(events[..i], events[i], answers[i], minutes)
      {
        NeverAccepts(events, purposes, minutes);
      }
    } else if PrefixFree(purposes) {
      forall events | Timely(events, purposes)
        ensures var answers := Run(map[], events, minutes).1;
                |answers| == |events| &&
                forall i :: 0 <= i < |events| ==> Agrees(events[..i], events[i], answers[i], minutes)
      {
        RunTracks(events, purposes, minutes);
      }
    } else {
      var p, q :| p in purposes && q in purposes && p <= q && p != q;
      Confused(purposes, p, q, minutes);
    }
  }

  /** A code registered for one purpose is accepted for a purpose its name begins with. */
  lemma Confused(purposes: set<string>, p: string, q: string, minutes: int)
    requires minutes > 0 && p in purposes && q in purposes && p <= q && p != q
    ensures !Invisible(purposes, minutes)
  {
    var x := q[|p|..];
    var reg, ver := Register(q, "", "c", 0, 0), Verify(p, x, "c", 0);
    var events := [reg, ver];
    assert p + x == q && q + "" == q;
    assert Timely(events, purposes);
    var s1 := Step(map[], reg, minutes).0;
    assert s1 == map[q := Value("c", 0)];
    assert Step(s1, ver, minutes).1;
    assert events[..1] == [reg] && [reg][..0] == [];
    assert Run(map[], [reg], minutes) == (s1, [] + [true]);
    assert Run(map[], events, minutes).1[1];
    assert Current([reg], p, x) == None;
    assert !Agrees(events[..1], events[1], Run(map[], events, minutes).1[1], minutes);
  }

  /** A code has expired exactly when it is as old as the validity, to the nanosecond. */
  lemma ExpiredAtAge(v: Value, now: int, minutes: int)
    requires v.time <= now
    ensures Expired(v, now, minutes) <==> now - v.time >= minutes * 60 * NANOS
  {}

  /** Every answer of every run, from the history alone: a code is accepted exactly when it is the latest one
      registered, not deleted since, and younger than the validity. */
  lemma AcceptedByAge(events: seq<Event>, purposes: set<string>, minutes: int, i: nat)
    requires PrefixFree(purposes) && Timely(events, purposes) && i < |events| && events[i].Verify?
    ensures var e, answers := events[i], Run(map[], events, minutes).1;
            var c := Current(events[..i], e.purpose, e.key);
            |answers| == |events| &&
            (answers[i] <==> c.Some? && c.value.code == e.code && e.now - c.value.time < minutes * 60 * NANOS)
  {
    hide Run, Current, Tracks, Expired;
    RunTracks(events, purposes, minutes);
    var e := events[i];
    assert Agrees(events[..i], e, Run(map[], events, minutes).1[i], minutes);
    assert forall k :: 0 <= k <= i ==> (events[..i] + [e])[k] == events[k];
    CurrentIsPast(events[..i], e, purposes);
    var c := Current(events[..i], e.purpose, e.key);
    if c.Some? { ExpiredAtAge(c.value, e.now, minutes); }
  }

  /** A registration stores its code and, only when that makes the map larger than the limit, drops exactly the
      expired codes; nothing else touches a stored code. */
  lemma RegisterExact(s: Store, e: Event, minutes: int)
    requires e.Register?
    ensures var t, id := Step(s, e, minutes).0, e.purpose + e.key;
            var grown := |s.Keys + {id}| > MAX_SIZE;
            forall k ::
              var v := if k == id then Some(Value(e.code, e.now)) else if k in s then Some(s[k]) else None;
              (k in t <==> v.Some? && !(grown && Expired(v.value, e.sweepAt, minutes))) && (k in t ==> t[k] == v.value)
  {
    hide Expired;
    assert s[e.purpose + e.key := Value(e.code, e.now)].Keys == s.Keys + {e.purpose + e.key};
  }

  const EMAIL_VERIFICATION := "v"
  const PASSWORD_RESET := "r"

  /** The purposes the gateway uses are told apart. */
  lemma BuiltInPurposes()
    ensures PrefixFree({EMAIL_VERIFICATION, PASSWORD_RESET})
  {}

  class VerificationCodes {
    var store: Store
    var validMinutes: int

    constructor (validMinutes: int)
      ensures store == map[] && this.validMinutes == validMinutes
    {
      store, this.validMinutes := map[], validMinutes;
    }

    method Register(key: string, code: string, purpose: string, now: int, sweepAt: int)
      modifies this`store
      ensures store == Step(old(store), Event.Register(purpose, key, code, now, sweepAt), validMinutes).0
    {
      store := store[purpose + key := Value(code, now)];
      if |store| > MAX_SIZE {
        RemoveExpiredPairs(sweepAt);
      }
    }

    method Verify(key: string, code: string, purpose: string, now: int) returns (ok: bool)
      ensures ok == Step(store, Event.Verify(purpose, key, code, now), validMinutes).1
    {
      if purpose + key !in store || Expired(store[purpose + key], now, validMinutes) {
        return false;
      }
      return code == store[purpose + key].code;
    }

    method DeleteKey(key: string, purpose: string)
      modifies this`store
      ensures store == old(store) - {purpose + key}
    {
      store := store - {purpose + key};
    }

    /** Visits the keys in any order and deletes the expired ones on the way. */
    method RemoveExpiredPairs(now: int)
      modifies this`store
      ensures store == Sweep(old(store), now, validMinutes)
    {
      var keys := store.Keys;
      while keys != {}
        invariant forall k :: k in store <==>
                    k in old(store) && (k in keys || !Expired(old(store)[k], now, validMinutes))
        invariant forall k :: k in store ==> store[k] == old(store)[k]
        invariant keys <= old(store).Keys
        decreases |keys|
      {
        var key :| key in keys;
        if Expired(store[key], now, validMinutes) {
          store := store - {key};
        }
        keys := keys - {key};
      }
    }
  }
}
