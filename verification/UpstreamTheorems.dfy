/**
 What every run of checks, selections and manual edits keeps, and where reconciliation ends.
 */
module UpstreamTheorems {
  import opened Text
  import opened OrderedSets
  import opened ModelNames
  import opened UpstreamUpdate

  /** Local names, ignored names (regex rules aside) and pending adds never overlap. */
  ghost predicate Apart(local: seq<string>, ignored: seq<string>, detected: seq<string>) {
    && (forall x :: x in local ==> (x in ignored ==> IsRule(x)) && x !in detected)
    && (forall x :: x in detected ==> x in ignored ==> IsRule(x))
  }

  ghost predicate Inv(s: State) {
    Apart(Local(s), Normalize(s.ignored), Normalize(s.detected)) && CommaFree(Normalize(s.detected))
  }

  datatype Action =
    | DoCheck(check: Check)
    | DoApply(selection: Selection, now: int)
    | DoEdit(models: string, settings: Settings)

  /** Upstream names and names sent as pending contain no comma. */
  ghost predicate Sane(a: Action) {
    match a
    case DoCheck(c) => c.fetch.Fetched? ==> CommaFree(c.fetch.names)
    case DoApply(_, _) => true
    case DoEdit(_, settings) => settings.Replace? ==> CommaFree(settings.detected)
  }

  function Do(s: State, a: Action): State {
    match a
    case DoCheck(c) => CheckStep(s, c).0
    case DoApply(sel, now) => ApplyStep(s, sel, now)
    case DoEdit(models, settings) => EditStep(s, models, settings)
  }

  function Run(s: State, actions: seq<Action>): State
    decreases |actions|
  {
    if actions == [] then s else Run(Do(s, actions[0]), actions[1..])
  }

  // ---- one step ---------------------------------------------------------------------------

  /** Auto-sync stores the old local names followed by every pending one. */
  lemma AutoSyncStores(s: State, adds: seq<string>)
    requires Normal(adds) && CommaFree(adds)
    ensures var merged := Merge(Local(s), adds);
            Normalize(GetModels(Join(merged, ','))) == merged && Normal(merged) &&
            forall x :: x in merged <==> x in Local(s) || x in adds
  {
    hide Normalize, Normal, GetModels;
    LocalCommaFree(s);
    NormalFixed(Local(s));
    NormalFixed(adds);
    MergeProps(Local(s), adds);
    StoredList(Merge(Local(s), adds));
  }

  lemma CheckKeepsInv(s: State, c: Check)
    requires Inv(s) && (c.fetch.Fetched? ==> CommaFree(c.fetch.names))
    ensures Inv(CheckStep(s, c).0)
  {
    hide Normalize, Normal, GetModels, PendingAdds, PendingRemoves, Join, Merge;
    if c.fetch.Fetched? {
      var adds := PendingAdds(GetModels(s.models), c.fetch.names, s.ignored, c.mapping, c.matches);
      PendingProps(GetModels(s.models), c.fetch.names, s.ignored, c.mapping, c.matches);
      NormalFixed(adds);
      NormalizeCommaFree(c.fetch.names);
      AutoSyncStores(s, adds);
      EmptyNormal();
      assert forall x :: !IsRule(x) ==> Blocks(x, x, c.matches);
    }
  }

  lemma EmptyNormal()
    ensures Normalize([]) == []
  {}

  lemma EffectiveProps(s: State, sel: Selection)
    ensures var e := Effective(s, sel);
            Normal(e.add) && Normal(e.ignore) && Normal(e.remove) && InOrderOf(e.add, Normalize(sel.add)) &&
            (forall x :: x in e.add <==> x in Normalize(sel.add) && x in Normalize(s.detected)) &&
            (forall x :: x in e.ignore <==> x in Normalize(sel.ignore) && x in Normalize(s.detected)) &&
            (forall x :: x in e.remove <==>
               x in Normalize(sel.remove) && x in Normalize(s.removed) && x !in e.add)
  {
    hide Normalize, Normal, InOrderOf;
    NormalizeNormal(s.detected);
    NormalizeNormal(s.removed);
    IntersectProps(sel.add, Normalize(s.detected));
    IntersectProps(sel.ignore, Normalize(s.detected));
    var add, remove := Intersect(sel.add, Normalize(s.detected)), Intersect(sel.remove, Normalize(s.removed));
    IntersectProps(sel.remove, Normalize(s.removed));
    SubtractProps(remove, add);
    NormalFixed(add);
    NormalFixed(remove);
  }

  /** The four lists a selection leaves behind, as sets; the local list as a list. */
  lemma ApplyProps(s: State, sel: Selection, now: int)
    requires CommaFree(Normalize(s.detected))
    ensures var e, t := Effective(s, sel), ApplyStep(s, sel, now);
            Local(t) == ApplySelected(Local(s), e.add, e.remove) &&
            Normal(t.ignored) && Normal(t.detected) && Normal(t.removed) && t.lastCheck == now &&
            InOrderOf(t.detected, Normalize(s.detected)) && InOrderOf(t.removed, Normalize(s.removed)) &&
            (forall x :: x in Local(t) <==> x in e.add || (x in Local(s) && x !in e.remove)) &&
            (forall x :: x in t.ignored <==> (x in Normalize(s.ignored) || x in e.ignore) && x !in e.add) &&
            (forall x :: x in t.detected <==> x in Normalize(s.detected) && x !in e.add && x !in e.ignore) &&
            (forall x :: x in t.removed <==> x in Normalize(s.removed) && x !in e.remove)
  {
    hide Normalize, Normal, GetModels, Effective, ApplySelected, Join, InOrderOf;
    var e, t := Effective(s, sel), ApplyStep(s, sel, now);
    EffectiveProps(s, sel);
    ApplyLocal(s, e, t);
    ApplyLists(s, e);
  }

  lemma ApplyLocal(s: State, e: Selection, t: State)
    requires Normal(e.add) && Normal(e.remove) && CommaFree(e.add)
    requires var next := ApplySelected(Local(s), e.add, e.remove);
             t.models == if next == Local(s) then s.models else Join(next, ',')
    ensures Local(t) == ApplySelected(Local(s), e.add, e.remove)
    ensures forall x :: x in Local(t) <==> x in e.add || (x in Local(s) && x !in e.remove)
  {
    hide Normalize, Normal, GetModels, ApplySelected, Join;
    LocalCommaFree(s);
    NormalFixed(Local(s));
    NormalFixed(e.add);
    NormalFixed(e.remove);
    ApplySelectedShape(Local(s), e.add, e.remove);
    StoredList(ApplySelected(Local(s), e.add, e.remove));
  }

  lemma ApplyLists(s: State, e: Selection)
    requires Normal(e.add) && Normal(e.ignore) && Normal(e.remove)
    ensures var merged := Merge(s.ignored, e.ignore); var i := if |e.add| > 0 then Subtract(merged, e.add) else merged;
            Normal(i) && forall x :: x in i <==> (x in Normalize(s.ignored) || x in e.ignore) && x !in e.add
    ensures var d := Subtract(Normalize(s.detected), e.add + e.ignore);
            Normal(d) && InOrderOf(d, Normalize(s.detected)) &&
            forall x :: x in d <==> x in Normalize(s.detected) && x !in e.add && x !in e.ignore
    ensures var r := Subtract(Normalize(s.removed), e.remove);
            Normal(r) && InOrderOf(r, Normalize(s.removed)) &&
            forall x :: x in r <==> x in Normalize(s.removed) && x !in e.remove
  {
    hide Normalize, Trimmed, InOrderOf;
    NormalFixed(e.add);
    NormalFixed(e.ignore);
    NormalFixed(e.remove);
    MergeProps(s.ignored, e.ignore);
    NormalFixed(Merge(s.ignored, e.ignore));
    SubtractProps(Merge(s.ignored, e.ignore), e.add);
    NormalizeNormal(s.detected);
    SubtractProps(Normalize(s.detected), e.add + e.ignore);
    NormalizeConcat(e.add, e.ignore);
    NormalizeNormal(s.removed);
    SubtractProps(Normalize(s.removed), e.remove);
  }

  lemma NormalizeConcat(a: seq<string>, b: seq<string>)
    requires forall x :: x in a || x in b ==> x != "" && Trimmed(x, IsSpace)
    ensures forall x :: x in Normalize(a + b) <==> x in a || x in b
  {
    hide Trimmed;
    TrimAllNormal(a + b);
    UniqProps(a + b);
  }

  lemma ApplyKeepsInv(s: State, sel: Selection, now: int)
    requires Inv(s)
    ensures Inv(ApplyStep(s, sel, now))
  {
    hide Normalize, Normal, ApplyStep, Effective, Local;
    ApplyProps(s, sel, now);
    EffectiveProps(s, sel);
    var t := ApplyStep(s, sel, now);
    NormalFixed(t.ignored);
    NormalFixed(t.detected);
  }

  /** An edit brings the three lists in line whatever settings came with it. */
  lemma EditGivesInv(s: State, models: string, settings: Settings)
    requires CommaFree(Normalize(if settings.Keep? then s.detected else settings.detected))
    ensures Inv(EditStep(s, models, settings))
  {
    hide Normalize, Trimmed, GetModels;
    var t := EditStep(s, models, settings);
    var next := Normalize(GetModels(models));
    var before := if settings.Keep? then s.ignored else settings.ignored;
    var detected := if settings.Keep? then s.detected else settings.detected;
    NormalizeNormal(GetModels(models));
    SubtractProps(Merge(before, Local(s)), next);
    NormalFixed(t.ignored);
    SubtractProps(detected, next + t.ignored);
    NormalizeConcat(next, t.ignored);
    NormalFixed(t.detected);
    assert Local(t) == next;
  }

  /** An edit stores the new models, puts every model it takes out on the ignore list and every model it brings back
      off it, and keeps pending what is neither local nor ignored now. */
  lemma EditExact(s: State, models: string, settings: Settings)
    ensures var t, next := EditStep(s, models, settings), Normalize(GetModels(models));
            var ignored := Normalize(if settings.Keep? then s.ignored else settings.ignored);
            var detected := Normalize(if settings.Keep? then s.detected else settings.detected);
            t.models == models && Local(t) == next && Normal(t.ignored) && Normal(t.detected) &&
            (forall x :: x in t.ignored <==> (x in ignored || x in Local(s)) && x !in next) &&
            (forall x :: x in t.detected <==> x in detected && x !in next && x !in t.ignored) &&
            InOrderOf(t.detected, detected) &&
            t.removed == (if settings.Keep? then s.removed else settings.removed) &&
            t.lastCheck == (if settings.Keep? then s.lastCheck else settings.lastCheck)
  {
    hide Normalize, Trimmed, GetModels, InOrderOf;
    var t, next := EditStep(s, models, settings), Normalize(GetModels(models));
    var ignored := if settings.Keep? then s.ignored else settings.ignored;
    var detected := if settings.Keep? then s.detected else settings.detected;
    NormalizeNormal(GetModels(models));
    NormalizeNormal(GetModels(s.models));
    MergeProps(ignored, Local(s));
    NormalFixed(Local(s));
    NormalFixed(next);
    NormalFixed(Merge(ignored, Local(s)));
    SubtractProps(Merge(ignored, Local(s)), next);
    SubtractProps(detected, next + t.ignored);
    NormalizeConcat(next, t.ignored);
  }

  /** What a check does, forced or scheduled: nothing within the interval; otherwise it notes the time and, if the
      fetch worked, records exactly the names to remove and to add, in order, or adopts the latter at once. */
  lemma CheckExact(s: State, c: Check)
    requires c.fetch.Fetched? ==> CommaFree(c.fetch.names)
    ensures var (t, count) := CheckStep(s, c);
            if !c.force && s.lastCheck > 0 && c.now - s.lastCheck < c.minInterval then t == s && count == 0
            else if c.fetch.Failed? then t == s.(lastCheck := c.now) && count == 0
            else t.lastCheck == c.now && t.ignored == s.ignored && Normal(t.removed) &&
                 (forall m :: m in t.removed <==>
                    m in Local(s) && m !in Normalize(c.fetch.names) && m !in c.mapping.Keys) &&
                 InOrderOf(t.removed, Local(s)) && Found(s, c, t, count)
  {
    hide Normalize, Normal, GetModels, PendingAdds, PendingRemoves, Join, InOrderOf, Merge, Ignored;
    if c.fetch.Fetched? {
      var adds := PendingAdds(GetModels(s.models), c.fetch.names, s.ignored, c.mapping, c.matches);
      PendingProps(GetModels(s.models), c.fetch.names, s.ignored, c.mapping, c.matches);
      NormalizeCommaFree(c.fetch.names);
      AutoSyncStores(s, adds);
      LocalCommaFree(s);
      MergeDisjoint(Local(s), adds);
      assert Local(s) + [] == Local(s);
    }
  }

  /** The names up for adding are the uncovered ones that are not ignored: pending, or local when synced. */
  ghost predicate Found(s: State, c: Check, t: State, count: int)
    requires c.fetch.Fetched?
  {
    exists adds ::
      Normal(adds) && InOrderOf(adds, Normalize(c.fetch.names)) &&
      (forall u :: u in adds <==> Uncovered(s, c, u) && !Ignored(Normalize(s.ignored), u, c.matches)) &&
      if c.autoSync then t.detected == [] && Local(t) == Local(s) + adds && count == |adds| &&
                         (adds == [] ==> t.models == s.models)
      else t.detected == adds && t.models == s.models && count == 0
  }

  /** The instants at which scheduled checks actually ask upstream. */
  function Asked(s: State, checks: seq<Check>): seq<int>
    decreases |checks|
  {
    if checks == [] then []
    else
      var t := CheckStep(s, checks[0]).0;
      (if !checks[0].force && s.lastCheck > 0 && checks[0].now - s.lastCheck < checks[0].minInterval then []
       else [checks[0].now]) + Asked(t, checks[1..])
  }

  /** Scheduled checks ask at least the interval apart, counted from the last check on record. */
  lemma {:induction false} ChecksAreSpaced(s: State, checks: seq<Check>, interval: int)
    requires forall i :: 0 <= i < |checks| ==>
               !checks[i].force && checks[i].minInterval == interval && checks[i].now > 0
    ensures var asked := Asked(s, checks);
            (asked != [] && s.lastCheck > 0 ==> asked[0] - s.lastCheck >= interval) &&
            (forall i :: 0 < i < |asked| ==> asked[i] - asked[i - 1] >= interval) &&
            (forall i :: 0 <= i < |asked| ==> asked[i] > 0)
    decreases |checks|
  {
    hide CheckStep;
    if checks != [] {
      var t := CheckStep(s, checks[0]).0;
      ChecksAreSpaced(t, checks[1..], interval);
      CheckNotesTime(s, checks[0]);
    }
  }

  lemma CheckNotesTime(s: State, c: Check)
    ensures CheckStep(s, c).0.lastCheck ==
            if !c.force && s.lastCheck > 0 && c.now - s.lastCheck < c.minInterval then s.lastCheck else c.now
  {
    hide PendingAdds, PendingRemoves, Join, Merge, Local;
  }

  // ---- a removed model stays away ---------------------------------------------------------------

  /** Ignored, and neither local nor pending. */
  ghost predicate Away(s: State, x: string) {
    x in Normalize(s.ignored) && x !in Normalize(s.detected) && x !in Local(s)
  }

  /** The action does not bring x back by hand, nor replace the ignore list by one without it. */
  ghost predicate LeavesAway(a: Action, x: string) {
    a.DoEdit? ==> x !in Normalize(GetModels(a.models)) &&
                  (a.settings.Replace? ==> x in Normalize(a.settings.ignored))
  }

  lemma StepKeepsAway(s: State, a: Action, x: string)
    requires Inv(s) && Sane(a) && Away(s, x) && !IsRule(x) && LeavesAway(a, x)
    ensures Away(Do(s, a), x)
  {
    hide Inv, Normalize, Normal, GetModels, CheckStep, ApplyStep, EditStep, Local, Effective, InOrderOf;
    match a
    case DoCheck(c) => CheckKeepsAway(s, c, x);
    case DoApply(sel, now) =>
      InvCommaFree(s);
      ApplyProps(s, sel, now);
      EffectiveProps(s, sel);
      NormalFixed(ApplyStep(s, sel, now).ignored);
      NormalFixed(ApplyStep(s, sel, now).detected);
    case DoEdit(models, settings) =>
      EditExact(s, models, settings);
      NormalFixed(EditStep(s, models, settings).ignored);
      NormalFixed(EditStep(s, models, settings).detected);
  }

  lemma CheckKeepsAway(s: State, c: Check, x: string)
    requires (c.fetch.Fetched? ==> CommaFree(c.fetch.names)) && Away(s, x) && !IsRule(x)
    ensures Away(CheckStep(s, c).0, x)
  {
    hide Normalize, Normal, GetModels, CheckStep, InOrderOf;
    CheckExact(s, c);
    assert Blocks(x, x, c.matches) && Ignored(Normalize(s.ignored), x, c.matches);
    var t := CheckStep(s, c).0;
    if t.lastCheck == c.now && c.fetch.Fetched? && Found(s, c, t, CheckStep(s, c).1) {
      EmptyNormal();
      if !c.autoSync { NormalFixed(t.detected); }
    } else {
      CheckLeavesLists(s, c);
    }
  }

  lemma CheckLeavesLists(s: State, c: Check)
    ensures var t := CheckStep(s, c).0;
            (t.ignored == s.ignored && t.detected == s.detected && t.models == s.models) ||
            (t.lastCheck == c.now && c.fetch.Fetched?)
  {
    hide PendingAdds, PendingRemoves, Join, Merge, Local;
  }

  lemma {:induction false} RunKeepsAway(s: State, actions: seq<Action>, x: string)
    requires Inv(s) && Away(s, x) && !IsRule(x)
    requires forall i :: 0 <= i < |actions| ==> Sane(actions[i]) && LeavesAway(actions[i], x)
    ensures Away(Run(s, actions), x)
    decreases |actions|
  {
    hide Inv, Away, Sane, LeavesAway, Do;
    if actions != [] {
      StepKeepsAway(s, actions[0], x);
      StepKeepsInv(s, actions[0]);
      RunKeepsAway(Do(s, actions[0]), actions[1..], x);
    }
  }

  /** A model that an edit takes out is never local or pending again, over every run, until an edit names it or
      replaces the ignore list. */
  lemma RemovedStaysAway(s: State, models: string, settings: Settings, actions: seq<Action>, x: string)
    requires CommaFree(Normalize(if settings.Keep? then s.detected else settings.detected))
    requires x in Local(s) && x !in Normalize(GetModels(models)) && !IsRule(x)
    requires forall i :: 0 <= i < |actions| ==> Sane(actions[i]) && LeavesAway(actions[i], x)
    ensures var t := Run(EditStep(s, models, settings), actions);
            x in Normalize(t.ignored) && x !in Normalize(t.detected) && x !in Local(t)
  {
    hide Normalize, Normal, GetModels, EditStep, Local, Sane, LeavesAway, Run, InOrderOf, Inv;
    var t := EditStep(s, models, settings);
    EditGivesInv(s, models, settings);
    EditExact(s, models, settings);
    NormalFixed(t.ignored);
    NormalFixed(t.detected);
    RunKeepsAway(t, actions, x);
  }

  lemma StepKeepsInv(s: State, a: Action)
    requires Inv(s) && Sane(a)
    ensures Inv(Do(s, a))
  {
    hide Inv, Local, CheckStep, ApplyStep, EditStep;
    match a
    case DoCheck(c) => CheckKeepsInv(s, c);
    case DoApply(sel, now) => ApplyKeepsInv(s, sel, now);
    case DoEdit(models, settings) =>
      assert CommaFree(Normalize(s.detected)) by { InvCommaFree(s); }
      if settings.Replace? { NormalizeCommaFree(settings.detected); }
      EditGivesInv(s, models, settings);
  }

  lemma InvCommaFree(s: State)
    requires Inv(s)
    ensures CommaFree(Normalize(s.detected))
  {}

  /** Every run keeps local, ignored and pending names apart. */
  lemma {:induction false} RunKeepsInv(s: State, actions: seq<Action>)
    requires Inv(s) && forall i :: 0 <= i < |actions| ==> Sane(actions[i])
    ensures Inv(Run(s, actions))
    decreases |actions|
  {
    if actions != [] {
      StepKeepsInv(s, actions[0]);
      RunKeepsInv(Do(s, actions[0]), actions[1..]);
    }
  }

  /** A new channel has nothing pending or ignored, so every run from it keeps the three apart. */
  lemma RunFromNew(models: string, actions: seq<Action>)
    requires forall i :: 0 <= i < |actions| ==> Sane(actions[i])
    ensures Inv(Run(State(models, [], [], [], 0), actions))
  {
    EmptyNormal();
    RunKeepsInv(State(models, [], [], [], 0), actions);
  }

  /** Auto-sync takes in every pending name, in upstream order after the local ones, and leaves none pending. */
  lemma AutoSyncAdoptsAll(s: State, c: Check)
    requires c.force && c.autoSync && c.fetch.Fetched? && CommaFree(c.fetch.names)
    ensures var adds := PendingAdds(GetModels(s.models), c.fetch.names, s.ignored, c.mapping, c.matches);
            var (t, count) := CheckStep(s, c);
            Local(t) == Local(s) + adds && count == |adds| && t.detected == [] && t.ignored == s.ignored &&
            PendingAdds(GetModels(t.models), c.fetch.names, t.ignored, c.mapping, c.matches) == []
  {
    hide Normalize, Normal, GetModels, PendingAdds, PendingRemoves, Join;
    var adds := PendingAdds(GetModels(s.models), c.fetch.names, s.ignored, c.mapping, c.matches);
    var t := CheckStep(s, c).0;
    PendingProps(GetModels(s.models), c.fetch.names, s.ignored, c.mapping, c.matches);
    PendingProps(GetModels(t.models), c.fetch.names, t.ignored, c.mapping, c.matches);
    NormalizeCommaFree(c.fetch.names);
    AutoSyncStores(s, adds);
    LocalCommaFree(s);
    NormalFixed(Local(s));
    NormalFixed(adds);
    MergeDisjoint(Local(s), adds);
    FirstElement(PendingAdds(GetModels(t.models), c.fetch.names, t.ignored, c.mapping, c.matches));
  }

  lemma MergeDisjoint(a: seq<string>, b: seq<string>)
    requires Normal(a) && Normal(b) && forall x :: x in b ==> x !in a
    ensures Merge(a, b) == a + b
  {
    hide Trimmed;
    NormalFixed(a);
    NormalFixed(b);
    FilterProps(b, x => x !in a);
  }

  // ---- conservation -----------------------------------------------------------------------

  /** A selection splits the pending adds into added, ignored and remaining, and add beats the other two. */
  lemma ApplyConserves(s: State, sel: Selection, now: int)
    requires Inv(s)
    ensures var e, t := Effective(s, sel), ApplyStep(s, sel, now);
            (forall x :: x in Normalize(s.detected) <==> x in e.add || x in e.ignore || x in t.detected) &&
            (forall x :: x in t.detected ==> x !in e.add && x !in e.ignore) &&
            (forall x :: x in e.add ==> x in Local(t) && x !in t.ignored && x !in e.remove) &&
            (forall x :: x in e.ignore && x !in e.add ==> x in t.ignored && x !in Local(t)) &&
            (forall x :: x in Normalize(s.removed) <==> x in e.remove || x in t.removed) &&
            Normal(Local(t))
  {
    hide Normalize, Normal, ApplyStep, Effective, Local;
    ApplyProps(s, sel, now);
    EffectiveProps(s, sel);
    InvApart(s);
    LocalCommaFree(ApplyStep(s, sel, now));
  }

  lemma InvApart(s: State)
    requires Inv(s)
    ensures forall x :: x in Normalize(s.detected) ==> x !in Local(s)
  {}

  // ---- convergence ------------------------------------------------------------------------

  /** Offered upstream, and neither local nor the target of a redirect. */
  ghost predicate Uncovered(s: State, c: Check, u: string)
    requires c.fetch.Fetched?
  {
    u in Normalize(c.fetch.names) && u !in Local(s) && u !in c.mapping.Values
  }

  /** Every uncovered name that is ignored is blocked by an entry that is not itself about to be added. */
  ghost predicate RulesSurvive(s: State, c: Check)
    requires c.fetch.Fetched?
  {
    var ignored := Normalize(s.ignored);
    forall u :: Uncovered(s, c, u) && Ignored(ignored, u, c.matches) ==> Shielded(s, c, u)
  }

  ghost predicate Shielded(s: State, c: Check, u: string)
    requires c.fetch.Fetched?
  {
    var ignored := Normalize(s.ignored);
    exists e :: e in ignored && Blocks(e, u, c.matches) && !(Uncovered(s, c, e) && !Ignored(ignored, e, c.matches))
  }

  /** Detect, then apply everything that was found. */
  function Settle(s: State, c: Check, now: int): State {
    var d := CheckStep(s, c).0;
    ApplyStep(d, Selection(d.detected, [], d.removed), now)
  }

  lemma SettleProps(s: State, c: Check, now: int)
    requires c.force && !c.autoSync && c.fetch.Fetched? && CommaFree(c.fetch.names)
    ensures var d, t := CheckStep(s, c).0, Settle(s, c, now);
            t.detected == [] && t.removed == [] && d.ignored == s.ignored && Local(d) == Local(s) &&
            Normal(d.detected) && Normal(d.removed) && Normal(t.ignored) &&
            (forall x :: x in t.ignored <==> x in Normalize(s.ignored) && x !in d.detected) &&
            (forall x :: x in Local(t) <==> x in d.detected || (x in Local(s) && x !in d.removed))
  {
    hide Normalize, Normal, GetModels, PendingAdds, PendingRemoves, Effective, ApplyStep;
    var d := CheckStep(s, c).0;
    PendingProps(GetModels(s.models), c.fetch.names, s.ignored, c.mapping, c.matches);
    PendingDisjoint(GetModels(s.models), c.fetch.names, s.ignored, c.mapping, c.matches);
    NormalFixed(d.detected);
    NormalFixed(d.removed);
    NormalizeCommaFree(c.fetch.names);
    var sel := Selection(d.detected, [], d.removed);
    EmptyNormal();
    EffectiveProps(d, sel);
    ApplyProps(d, sel, now);
    assert Local(d) == Local(s);
    var t := ApplyStep(d, sel, now);
    FirstElement(t.detected);
    FirstElement(t.removed);
  }

  /** After applying everything, a new check finds nothing to remove, and nothing to add iff the rules survive. */
  lemma Converges(s: State, c: Check, now: int)
    requires c.force && !c.autoSync && c.fetch.Fetched? && CommaFree(c.fetch.names)
    ensures var again := CheckStep(Settle(s, c, now), c).0;
            again.removed == [] && (again.detected == [] <==> RulesSurvive(s, c))
  {
    hide Normalize, Normal, GetModels, PendingAdds, PendingRemoves, Settle;
    var d, t := CheckStep(s, c).0, Settle(s, c, now);
    var again := CheckStep(t, c).0;
    SettleProps(s, c, now);
    PendingProps(GetModels(s.models), c.fetch.names, s.ignored, c.mapping, c.matches);
    PendingProps(GetModels(t.models), c.fetch.names, t.ignored, c.mapping, c.matches);
    NormalFixed(t.ignored);
    FirstElement(again.removed);
    assert forall e :: e in d.detected <==> Uncovered(s, c, e) && !Ignored(Normalize(s.ignored), e, c.matches);
    if RulesSurvive(s, c) {
      forall u | u in again.detected ensures Shielded(s, c, u) {
        assert Uncovered(s, c, u) && Ignored(Normalize(s.ignored), u, c.matches);
      }
      FirstElement(again.detected);
    } else {
      var u :| Uncovered(s, c, u) && Ignored(Normalize(s.ignored), u, c.matches) && !Shielded(s, c, u);
      assert u in again.detected;
    }
  }

  /** Detecting and applying everything, again and again. */
  function Rounds(s: State, c: Check, clock: nat -> int, n: nat): State {
    if n == 0 then s else Settle(Rounds(s, c, clock, n - 1), c, clock(n - 1))
  }

  predicate NotLocal(s: State, u: string) {
    u !in Local(s)
  }

  /** The upstream names a channel does not have. */
  function Missing(s: State, c: Check): seq<string>
    requires c.fetch.Fetched?
  {
    Filter(Normalize(c.fetch.names), u => NotLocal(s, u))
  }

  lemma {:induction false} FilterFewer(s: seq<string>, p: string -> bool, q: string -> bool)
    requires forall x :: x in s && q(x) ==> p(x)
    ensures |Filter(s, q)| <= |Filter(s, p)|
    ensures (exists x :: x in s && p(x) && !q(x)) ==> |Filter(s, q)| < |Filter(s, p)|
  {
    if s != [] {
      assert s[0] in s && forall x :: x in s[1..] ==> x in s;
      FilterFewer(s[1..], p, q);
      if x :| x in s && p(x) && !q(x) { assert x == s[0] || x in s[1..]; }
    }
  }

  /** A round takes no upstream name away, and adds one whenever there was something to add. */
  lemma RoundGains(s: State, c: Check, now: int)
    requires c.force && !c.autoSync && c.fetch.Fetched? && CommaFree(c.fetch.names)
    ensures var t := Settle(s, c, now);
            |Missing(t, c)| <= |Missing(s, c)| &&
            (CheckStep(s, c).0.detected != [] ==> |Missing(t, c)| < |Missing(s, c)|)
  {
    hide Normalize, Normal, GetModels, PendingAdds, PendingRemoves, Settle, Local, Filter;
    var d, t := CheckStep(s, c).0, Settle(s, c, now);
    SettleProps(s, c, now);
    FoundProps(s, c);
    forall u | u in Normalize(c.fetch.names) && NotLocal(t, u) ensures NotLocal(s, u) {}
    FirstElement(d.detected);
    if d.detected != [] {
      var u := d.detected[0];
      assert u in d.detected;
      assert u in Normalize(c.fetch.names) && NotLocal(s, u) && !NotLocal(t, u);
    }
    FilterFewer(Normalize(c.fetch.names), u => NotLocal(s, u), u => NotLocal(t, u));
  }

  /** What a check finds, as sets. */
  lemma FoundProps(s: State, c: Check)
    requires c.force && !c.autoSync && c.fetch.Fetched?
    ensures var d := CheckStep(s, c).0;
            (forall u :: u in d.detected <==> Uncovered(s, c, u) && !Ignored(Normalize(s.ignored), u, c.matches)) &&
            (forall m :: m in d.removed ==> m !in Normalize(c.fetch.names))
  {
    hide Normalize, Normal, GetModels, PendingAdds, PendingRemoves;
    PendingProps(GetModels(s.models), c.fetch.names, s.ignored, c.mapping, c.matches);
  }

  /** With nothing to add, there is nothing to add after a round either. */
  lemma NothingStaysNothing(s: State, c: Check, now: int)
    requires c.force && !c.autoSync && c.fetch.Fetched? && CommaFree(c.fetch.names)
    requires CheckStep(s, c).0.detected == []
    ensures CheckStep(Settle(s, c, now), c).0.detected == []
  {
    hide Normalize, Local, CheckStep, Settle;
    FoundProps(s, c);
    var ignored := Normalize(s.ignored);
    forall u | Uncovered(s, c, u) && Ignored(ignored, u, c.matches) ensures Shielded(s, c, u) {
      var e :| e in ignored && Blocks(e, u, c.matches);
    }
    Converges(s, c, now);
  }

  /** After n rounds there is nothing left to add, or at least n names have come in. */
  lemma {:induction false} RoundsGain(s: State, c: Check, clock: nat -> int, n: nat)
    requires c.force && !c.autoSync && c.fetch.Fetched? && CommaFree(c.fetch.names)
    ensures var t := Rounds(s, c, clock, n);
            CheckStep(t, c).0.detected == [] || |Missing(t, c)| + n <= |Missing(s, c)|
  {
    hide Missing, CheckStep, Settle;
    if n > 0 {
      var t := Rounds(s, c, clock, n - 1);
      RoundsGain(s, c, clock, n - 1);
      RoundGains(t, c, clock(n - 1));
      if CheckStep(t, c).0.detected == [] { NothingStaysNothing(t, c, clock(n - 1)); }
    }
  }

  lemma FoundIsMissing(s: State, c: Check)
    requires c.force && !c.autoSync && c.fetch.Fetched?
    ensures CheckStep(s, c).0.detected != [] ==> |Missing(s, c)| > 0
  {
    hide Normalize, Filter, CheckStep, Local;
    FoundProps(s, c);
    FirstElement(CheckStep(s, c).0.detected);
    FilterProps(Normalize(c.fetch.names), u => NotLocal(s, u));
  }

  /** Whatever the rules, as many rounds as there are upstream names, and at least one, end with nothing to add
      or remove. */
  lemma RoundsConverge(s: State, c: Check, clock: nat -> int, n: nat)
    requires c.force && !c.autoSync && c.fetch.Fetched? && CommaFree(c.fetch.names)
    requires n >= 1 && n >= |Normalize(c.fetch.names)|
    ensures var again := CheckStep(Rounds(s, c, clock, n), c).0; again.detected == [] && again.removed == []
  {
    hide Normalize, Settle, Filter, CheckStep, Local;
    var t := Rounds(s, c, clock, n);
    Converges(Rounds(s, c, clock, n - 1), c, clock(n - 1));
    RoundsGain(s, c, clock, n);
    FilterProps(Normalize(c.fetch.names), u => NotLocal(s, u));
    FoundIsMissing(t, c);
  }

  /** Upstream names that do not look like regex rules always converge. */
  lemma PlainNamesConverge(s: State, c: Check, now: int)
    requires c.force && !c.autoSync && c.fetch.Fetched? && CommaFree(c.fetch.names)
    requires forall u :: u in Normalize(c.fetch.names) ==> !IsRule(u)
    ensures var again := CheckStep(Settle(s, c, now), c).0; again.detected == [] && again.removed == []
  {
    hide Normalize, Normal, Local, Settle;
    var ignored := Normalize(s.ignored);
    forall u | Uncovered(s, c, u) && Ignored(ignored, u, c.matches) ensures Shielded(s, c, u) {
      var e :| e in ignored && Blocks(e, u, c.matches);
      assert !IsRule(e) ==> Blocks(e, e, c.matches);
    }
    Converges(s, c, now);
  }

  const RULE := "regex:x"
  const PLAIN := "y"

  /** A model named like an ignore rule takes that rule away when it is added, and the next check finds more. */
  lemma RuleNamedModelDiverges()
    ensures exists s: State, c: Check, now: int ::
              c.force && !c.autoSync && c.fetch.Fetched? && CommaFree(c.fetch.names) &&
              CheckStep(Settle(s, c, now), c).0.detected != []
  {
    var s := State("", [RULE], [], [], 0);
    var c := Check(0, true, 0, false, Fetched([RULE, PLAIN]), map[], (body, name) => name == PLAIN);
    ExampleLists();
    hide Normalize, Settle, CheckStep, Trimmed, IsRule, Ignored;
    assert [RULE, PLAIN][0] in [RULE, PLAIN] && [RULE, PLAIN][1] in [RULE, PLAIN] && [RULE][0] in [RULE];
    assert Ignored([RULE], PLAIN, c.matches) && !Ignored([RULE], RULE, c.matches) by { ExampleRule(c.matches); }
    assert Uncovered(s, c, PLAIN) && Uncovered(s, c, RULE);
    assert !Shielded(s, c, PLAIN);
    assert !RulesSurvive(s, c);
    Converges(s, c, 0);
  }

  lemma ExampleLists()
    ensures Normalize([RULE, PLAIN]) == [RULE, PLAIN] && Normalize([RULE]) == [RULE] && Normalize([]) == []
    ensures CommaFree([RULE, PLAIN]) && GetModels("") == []
  {
    NormalFixed([RULE, PLAIN]);
    NormalFixed([RULE]);
  }

  lemma ExampleRule(matches: Matcher)
    requires forall body, name :: matches(body, name) == (name == PLAIN)
    ensures Ignored([RULE], PLAIN, matches) && !Ignored([RULE], RULE, matches)
  {
    assert IsRule(RULE) && [RULE][0] in [RULE];
    assert Blocks(RULE, PLAIN, matches) && !Blocks(RULE, RULE, matches);
  }
}
