/**
 Admission of plugin observations under four limits at once, with hand-written rollback.
 */
module AdmissionLimiter {
  import opened Basics
  import opened Text

  datatype Limits = Limits(global: int, perPlugin: int, perUser: int, perToken: int)

  datatype Identity = Identity(plugin: string, user: int, token: int)

  datatype Counters = Counters(global: int, plugin: map<string, int>, user: map<int, int>, token: map<int, int>)

  datatype Scope = Global | Plugin | User | Token

  datatype Outcome = Admitted | InvalidIdentity(field: Scope) | Full(scope: Scope, limit: int)

  ghost predicate Tidy(c: Counters) {
    NoZeros(c.plugin) && NoZeros(c.user) && NoZeros(c.token)
  }

  /** Taking back an increment restores the map, entry or no entry, as long as it holds no zeros. */
  lemma DecUndoesInc<K>(m: map<K, int>, k: K)
    requires NoZeros(m)
    ensures Dec(Inc(m, k), k) == m
  {}

  /** What a request is judged by: the first missing part of its identity, then the first dimension without room. */
  function Judge(limits: Limits, c: Counters, id: Identity): Outcome {
    if id.plugin == "" then InvalidIdentity(Plugin)
    else if id.user <= 0 then InvalidIdentity(User)
    else if id.token <= 0 then InvalidIdentity(Token)
    else if c.global >= limits.global then Full(Global, limits.global)
    else if Get(c.plugin, id.plugin) >= limits.perPlugin then Full(Plugin, limits.perPlugin)
    else if Get(c.user, id.user) >= limits.perUser then Full(User, limits.perUser)
    else if Get(c.token, id.token) >= limits.perToken then Full(Token, limits.perToken)
    else Admitted
  }

  function Take(c: Counters, id: Identity): Counters {
    Counters(c.global + 1, Inc(c.plugin, id.plugin), Inc(c.user, id.user), Inc(c.token, id.token))
  }

  function Give(c: Counters, id: Identity): Counters {
    Counters(c.global - 1, Dec(c.plugin, id.plugin), Dec(c.user, id.user), Dec(c.token, id.token))
  }

  // ---- the limiter object ---------------------------------------------------------------------

  class Limiter {
    const limits: Limits
    var global: int
    var plugin: map<string, int>
    var user: map<int, int>
    var token: map<int, int>

    ghost function View(): Counters
      reads this
    {
      Counters(global, plugin, user, token)
    }

    constructor (limits: Limits)
      ensures this.limits == limits && View() == Counters(0, map[], map[], map[])
    {
      this.limits := limits;
      global, plugin, user, token := 0, map[], map[], map[];
    }

    /** Counts up dimension by dimension and takes back what it counted when one is full. */
    method Acquire(pluginKey: string, userID: int, tokenID: int) returns (ticket: Ticket?, outcome: Outcome)
      requires Tidy(View())
      modifies this
      ensures var id := Identity(TrimSpace(pluginKey), userID, tokenID);
              outcome == Judge(limits, old(View()), id) &&
              View() == (if outcome.Admitted? then Take(old(View()), id) else old(View())) &&
              (ticket != null <==> outcome.Admitted?) &&
              (ticket != null ==> fresh(ticket) && ticket.limiter == this && ticket.id == id && !ticket.released)
    {
      hide TrimSpace, Inc, Dec, Get, NoZeros;
      var key := TrimSpace(pluginKey);
      ticket := null;
      if key == "" {
        return null, InvalidIdentity(Plugin);
      } else if userID <= 0 {
        return null, InvalidIdentity(User);
      } else if tokenID <= 0 {
        return null, InvalidIdentity(Token);
      }
      if global >= limits.global {
        return null, Full(Global, limits.global);
      }
      global := global + 1;

      if Get(plugin, key) >= limits.perPlugin {
        global := global - 1;
        return null, Full(Plugin, limits.perPlugin);
      }
      plugin := Inc(plugin, key);

      if Get(user, userID) >= limits.perUser {
        global := global - 1;
        DecUndoesInc(old(plugin), key);
        plugin := Dec(plugin, key);
        return null, Full(User, limits.perUser);
      }
      user := Inc(user, userID);

      if Get(token, tokenID) >= limits.perToken {
        global := global - 1;
        DecUndoesInc(old(plugin), key);
        plugin := Dec(plugin, key);
        DecUndoesInc(old(user), userID);
        user := Dec(user, userID);
        return null, Full(Token, limits.perToken);
      }
      token := Inc(token, tokenID);
      outcome := Admitted;
      ticket := new Ticket(this, Identity(key, userID, tokenID));
    }
  }

  /** The release function handed to the caller; only its first call has an effect. */
  class Ticket {
    const limiter: Limiter
    const id: Identity
    var released: bool

    constructor (limiter: Limiter, id: Identity)
      ensures this.limiter == limiter && this.id == id && !released
    {
      this.limiter, this.id, released := limiter, id, false;
    }

    method Release()
      modifies this, limiter
      ensures released
      ensures limiter.View() == if old(released) then old(limiter.View()) else Give(old(limiter.View()), id)
    {
      if released {
        return;
      }
      released := true;
      var l := limiter;
      l.global := l.global - 1;
      l.plugin := Dec(l.plugin, id.plugin);
      l.user := Dec(l.user, id.user);
      l.token := Dec(l.token, id.token);
    }
  }

  // ---- every sequence of acquires and releases --------------------------------------------------

  datatype Held = Held(id: Identity, released: bool)

  datatype System = System(counters: Counters, tickets: seq<Held>)

  const START := System(Counters(0, map[], map[], map[]), [])

  datatype Event = Acquire(id: Identity) | Release(ticket: nat)

  function Step(limits: Limits, s: System, e: Event): System {
    match e
    case Acquire(id) =>
      if Judge(limits, s.counters, id).Admitted?
      then System(Take(s.counters, id), s.tickets + [Held(id, false)]) else s
    case Release(t) =>
      if t < |s.tickets| && !s.tickets[t].released
      then System(Give(s.counters, s.tickets[t].id), s.tickets[t := s.tickets[t].(released := true)]) else s
  }

  function Run(limits: Limits, s: System, events: seq<Event>): System
    decreases |events|
  {
    if events == [] then s else Run(limits, Step(limits, s, events[0]), events[1..])
  }

  /** Outstanding tickets whose identity maps to k. */
  function Count<K(==)>(tickets: seq<Held>, key: Identity -> K, k: K): nat {
    if tickets == [] then 0
    else (if !tickets[0].released && key(tickets[0].id) == k then 1 else 0) + Count(tickets[1..], key, k)
  }

  function Outstanding(tickets: seq<Held>): nat {
    if tickets == [] then 0
    else (if !tickets[0].released then 1 else 0) + Outstanding(tickets[1..])
  }

  lemma {:induction false} CountNew<K>(tickets: seq<Held>, key: Identity -> K, k: K, h: Held)
    ensures Count(tickets + [h], key, k) == Count(tickets, key, k) + if !h.released && key(h.id) == k then 1 else 0
    ensures Outstanding(tickets + [h]) == Outstanding(tickets) + if !h.released then 1 else 0
  {
    if tickets != [] {
      CountNew(tickets[1..], key, k, h);
      assert (tickets + [h])[1..] == tickets[1..] + [h];
    }
  }

  lemma {:induction false} CountReleased<K>(tickets: seq<Held>, key: Identity -> K, k: K, t: nat)
    requires t < |tickets| && !tickets[t].released
    ensures var after := tickets[t := tickets[t].(released := true)];
            Count(tickets, key, k) == Count(after, key, k) + (if key(tickets[t].id) == k then 1 else 0) &&
            Outstanding(tickets) == Outstanding(after) + 1
  {
    var after := tickets[t := tickets[t].(released := true)];
    if t == 0 {
      assert after[1..] == tickets[1..];
    } else {
      CountReleased(tickets[1..], key, k, t - 1);
      assert after[1..] == tickets[1..][t - 1 := tickets[1..][t - 1].(released := true)];
    }
  }

  /** The total over a dimension. */
  ghost function Sum<K>(m: map<K, int>): int
    decreases |m|
  {
    if m == map[] then 0 else var k :| k in m; m[k] + Sum(m - {k})
  }

  lemma {:induction false} SumRemove<K>(m: map<K, int>, k: K)
    requires k in m
    ensures Sum(m) == m[k] + Sum(m - {k})
    decreases |m|
  {
    var j :| j in m && Sum(m) == m[j] + Sum(m - {j});
    if j != k {
      SumRemove(m - {j}, k);
      SumRemove(m - {k}, j);
      assert m - {j} - {k} == m - {k} - {j};
    }
  }

  lemma SumIncDec<K>(m: map<K, int>, k: K)
    ensures Sum(Inc(m, k)) == Sum(m) + 1
    ensures k in m ==> Sum(Dec(m, k)) == Sum(m) - 1
  {
    SumRemove(Inc(m, k), k);
    assert Inc(m, k) - {k} == m - {k};
    if k in m {
      SumRemove(m, k);
      if m[k] - 1 != 0 {
        SumRemove(Dec(m, k), k);
        assert Dec(m, k) - {k} == m - {k};
      }
    } else {
      assert m - {k} == m;
    }
  }

  /** One dimension: each entry counts its outstanding tickets, none is zero or over the limit, and the total fits. */
  ghost predicate Exact<K(!new)>(m: map<K, int>, tickets: seq<Held>, key: Identity -> K, limit: int) {
    && (forall k :: Get(m, k) == Count(tickets, key, k))
    && (forall k :: k in m ==> 0 < m[k] <= limit)
    && Sum(m) == Outstanding(tickets)
  }

  function PluginOf(id: Identity): string { id.plugin }
  function UserOf(id: Identity): int { id.user }
  function TokenOf(id: Identity): int { id.token }

  ghost predicate Inv(limits: Limits, s: System) {
    && s.counters.global == Outstanding(s.tickets) && (s.counters.global > 0 ==> s.counters.global <= limits.global)
    && Exact(s.counters.plugin, s.tickets, PluginOf, limits.perPlugin)
    && Exact(s.counters.user, s.tickets, UserOf, limits.perUser)
    && Exact(s.counters.token, s.tickets, TokenOf, limits.perToken)
  }

  lemma TakeExact<K(!new)>(m: map<K, int>, tickets: seq<Held>, key: Identity -> K, limit: int, id: Identity)
    requires Exact(m, tickets, key, limit) && Get(m, key(id)) < limit
    ensures Exact(Inc(m, key(id)), tickets + [Held(id, false)], key, limit)
  {
    forall k ensures Get(Inc(m, key(id)), k) == Count(tickets + [Held(id, false)], key, k) {
      CountNew(tickets, key, k, Held(id, false));
    }
    CountNew(tickets, key, key(id), Held(id, false));
    SumIncDec(m, key(id));
  }

  lemma GiveExact<K(!new)>(m: map<K, int>, tickets: seq<Held>, key: Identity -> K, limit: int, t: nat)
    requires Exact(m, tickets, key, limit) && t < |tickets| && !tickets[t].released
    ensures Exact(Dec(m, key(tickets[t].id)), tickets[t := tickets[t].(released := true)], key, limit)
  {
    var k0, after := key(tickets[t].id), tickets[t := tickets[t].(released := true)];
    forall k ensures Get(Dec(m, k0), k) == Count(after, key, k) {
      CountReleased(tickets, key, k, t);
    }
    CountReleased(tickets, key, k0, t);
    SumIncDec(m, k0);
  }

  lemma StepInv(limits: Limits, s: System, e: Event)
    requires Inv(limits, s)
    ensures Inv(limits, Step(limits, s, e))
  {
    hide Exact;
    match e
    case Acquire(id) =>
      if Judge(limits, s.counters, id).Admitted? {
        TakeExact(s.counters.plugin, s.tickets, PluginOf, limits.perPlugin, id);
        TakeExact(s.counters.user, s.tickets, UserOf, limits.perUser, id);
        TakeExact(s.counters.token, s.tickets, TokenOf, limits.perToken, id);
        CountNew(s.tickets, UserOf, 0, Held(id, false));
      }
    case Release(t) =>
      if t < |s.tickets| && !s.tickets[t].released {
        GiveExact(s.counters.plugin, s.tickets, PluginOf, limits.perPlugin, t);
        GiveExact(s.counters.user, s.tickets, UserOf, limits.perUser, t);
        GiveExact(s.counters.token, s.tickets, TokenOf, limits.perToken, t);
        CountReleased(s.tickets, UserOf, 0, t);
      }
  }

  lemma {:induction false} RunInv(limits: Limits, s: System, events: seq<Event>)
    requires Inv(limits, s)
    ensures Inv(limits, Run(limits, s, events)) && Tidy(Run(limits, s, events).counters)
    decreases |events|
  {
    if events != [] {
      StepInv(limits, s, events[0]);
      RunInv(limits, Step(limits, s, events[0]), events[1..]);
    }
  }

  /** From the empty limiter, after any sequence of acquires and (repeated) releases. */
  lemma CountersAreOutstanding(limits: Limits, events: seq<Event>)
    ensures Inv(limits, Run(limits, START, events)) && Tidy(Run(limits, START, events).counters)
  {
    RunInv(limits, START, events);
  }

  /** In every reachable state a request is admitted exactly when its identity is complete and the outstanding tickets
      leave room in all four dimensions; otherwise the answer names the first part or dimension that fails. */
  lemma AdmittedIff(limits: Limits, events: seq<Event>, id: Identity)
    ensures var s := Run(limits, START, events);
            var outcome, valid := Judge(limits, s.counters, id), id.plugin != "" && id.user > 0 && id.token > 0;
            var g := Outstanding(s.tickets) < limits.global;
            var p := Count(s.tickets, PluginOf, id.plugin) < limits.perPlugin;
            var u := Count(s.tickets, UserOf, id.user) < limits.perUser;
            var t := Count(s.tickets, TokenOf, id.token) < limits.perToken;
            (outcome.Admitted? <==> valid && g && p && u && t) &&
            (outcome.InvalidIdentity? <==> !valid) &&
            (outcome == InvalidIdentity(Plugin) <==> id.plugin == "") &&
            (outcome == InvalidIdentity(User) <==> id.plugin != "" && id.user <= 0) &&
            (outcome == Full(Global, limits.global) <==> valid && !g) &&
            (outcome == Full(Plugin, limits.perPlugin) <==> valid && g && !p) &&
            (outcome == Full(User, limits.perUser) <==> valid && g && p && !u) &&
            (outcome == Full(Token, limits.perToken) <==> valid && g && p && u && !t)
  {
    hide Run, Count, Outstanding, Get, Sum;
    CountersAreOutstanding(limits, events);
  }

  /** An admitted request becomes one more outstanding ticket; a refused one leaves no trace. */
  lemma AcquireLeaves(limits: Limits, s: System, id: Identity)
    ensures var t, admitted := Step(limits, s, Acquire(id)), Judge(limits, s.counters, id).Admitted?;
            Outstanding(t.tickets) == Outstanding(s.tickets) + (if admitted then 1 else 0) &&
            (!admitted ==> t == s)
  {
    CountNew(s.tickets, UserOf, 0, Held(id, false));
  }

  /** The first release of a ticket frees its place in every dimension; any other release changes nothing. */
  lemma ReleaseLeaves(limits: Limits, s: System, t: nat)
    ensures var u := Step(limits, s, Release(t));
            if t < |s.tickets| && !s.tickets[t].released then
              u.tickets == s.tickets[t := Held(s.tickets[t].id, true)] &&
              Outstanding(u.tickets) == Outstanding(s.tickets) - 1
            else u == s
  {
    if t < |s.tickets| && !s.tickets[t].released { CountReleased(s.tickets, UserOf, 0, t); }
  }
}
