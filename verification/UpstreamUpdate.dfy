/**
 Reconciling a channel's models with what its upstream offers: detect, auto-sync, apply, manual edit.

 Regular expressions are a parameter; the upstream fetch is a parameter that may fail.
 */
module UpstreamUpdate {
  import opened Text
  import opened OrderedSets
  import opened ModelNames

  type Matcher = (string, string) -> bool

  const RULE_PREFIX := "regex:"

  predicate IsRule(entry: string) {
    RULE_PREFIX <= entry
  }

  predicate Blocks(entry: string, name: string, matches: Matcher) {
    if IsRule(entry) then matches(TrimSpace(entry[|RULE_PREFIX|..]), name) else entry == name
  }

  predicate Ignored(entries: seq<string>, name: string, matches: Matcher) {
    exists e :: e in entries && Blocks(e, name, matches)
  }

  /** A name is ignored when it is listed itself, or when the rule behind some listed prefix matches it. */
  lemma IgnoredIff(entries: seq<string>, name: string, matches: Matcher)
    ensures Ignored(entries, name, matches) <==>
            (name in entries && !IsRule(name)) ||
            exists body :: RULE_PREFIX + body in entries && matches(TrimSpace(body), name)
  {
    hide TrimSpace;
    if e :| e in entries && Blocks(e, name, matches) && IsRule(e) {
      assert e == RULE_PREFIX + e[|RULE_PREFIX|..];
    }
    if body :| RULE_PREFIX + body in entries && matches(TrimSpace(body), name) {
      var e := RULE_PREFIX + body;
      assert e[..|RULE_PREFIX|] == RULE_PREFIX && e[|RULE_PREFIX|..] == body;
      assert Blocks(e, name, matches);
    }
    if name in entries && !IsRule(name) { assert Blocks(name, name, matches); }
  }

  /** Upstream names that are neither local, nor a redirect target, nor ignored. */
  function PendingAdds(local: seq<string>, upstream: seq<string>, ignored: seq<string>,
                       mapping: map<string, string>, matches: Matcher): seq<string>
  {
    var l, i := Normalize(local), Normalize(ignored);
    Normalize(Filter(Normalize(upstream), u => !(u in l || u in mapping.Values) && !Ignored(i, u, matches)))
  }

  /** Local names that upstream does not offer and that are not redirect sources. */
  function PendingRemoves(local: seq<string>, upstream: seq<string>, mapping: map<string, string>): seq<string> {
    var u := Normalize(upstream);
    Normalize(Filter(Normalize(local), m => m !in mapping.Keys && m !in u))
  }

  lemma PendingProps(local: seq<string>, upstream: seq<string>, ignored: seq<string>,
                     mapping: map<string, string>, matches: Matcher)
    ensures Normal(PendingAdds(local, upstream, ignored, mapping, matches))
    ensures forall u :: u in PendingAdds(local, upstream, ignored, mapping, matches) <==>
              u in Normalize(upstream) && u !in Normalize(local) && u !in mapping.Values &&
              !Ignored(Normalize(ignored), u, matches)
    ensures InOrderOf(PendingAdds(local, upstream, ignored, mapping, matches), Normalize(upstream))
    ensures Normal(PendingRemoves(local, upstream, mapping))
    ensures InOrderOf(PendingRemoves(local, upstream, mapping), Normalize(local))
    ensures forall m :: m in PendingRemoves(local, upstream, mapping) <==>
              m in Normalize(local) && m !in Normalize(upstream) && m !in mapping.Keys
  {
    hide Normalize, Trimmed, Ignored, InOrderOf;
    var l, i, u := Normalize(local), Normalize(ignored), Normalize(upstream);
    var keepAdd := x => !(x in l || x in mapping.Values) && !Ignored(i, x, matches);
    var keepRemove := x => x !in mapping.Keys && x !in u;
    NormalizeNormal(local);
    NormalizeNormal(upstream);
    FilterNormal(u, keepAdd);
    FilterInOrder(u, keepAdd);
    NormalFixed(Filter(u, keepAdd));
    FilterNormal(l, keepRemove);
    FilterInOrder(l, keepRemove);
    NormalFixed(Filter(l, keepRemove));
  }

  /** Nothing is proposed for adding and removing at once, and redirect sources are never removed. */
  lemma PendingDisjoint(local: seq<string>, upstream: seq<string>, ignored: seq<string>,
                        mapping: map<string, string>, matches: Matcher)
    ensures forall x :: x in PendingAdds(local, upstream, ignored, mapping, matches) ==>
              x !in PendingRemoves(local, upstream, mapping)
    ensures forall x :: x in PendingRemoves(local, upstream, mapping) ==> x !in mapping.Keys
  {
    hide Normalize, Normal, Ignored, PendingAdds, PendingRemoves;
    PendingProps(local, upstream, ignored, mapping, matches);
  }

  // ---- the channel's state --------------------------------------------------------------

  /** Stored models are one comma-joined string; the other lists live in the channel's settings. */
  datatype State = State(models: string, ignored: seq<string>, detected: seq<string>, removed: seq<string>,
                         lastCheck: int)

  function GetModels(models: string): seq<string> {
    if models == "" then [] else Split(Trim(models, c => c == ','), ',')
  }

  function Local(s: State): seq<string> {
    Normalize(GetModels(s.models))
  }

  datatype Fetch = Failed | Fetched(names: seq<string>)

  datatype Check = Check(now: int, force: bool, minInterval: int, autoSync: bool, fetch: Fetch,
                         mapping: map<string, string>, matches: Matcher)

  /** One upstream check; autoSync is "allowed by the caller and enabled on the channel". */
  function CheckStep(s: State, c: Check): (State, int) {
    if !c.force && s.lastCheck > 0 && c.now - s.lastCheck < c.minInterval then (s, 0)
    else if c.fetch.Failed? then (s.(lastCheck := c.now), 0)
    else
      var adds := PendingAdds(GetModels(s.models), c.fetch.names, s.ignored, c.mapping, c.matches);
      var t := s.(lastCheck := c.now, removed := PendingRemoves(GetModels(s.models), c.fetch.names, c.mapping));
      if c.autoSync && |adds| > 0 then
        var merged := Merge(Local(s), adds);
        if |merged| > |Local(s)|
        then (t.(models := Join(merged, ','), detected := []), |merged| - |Local(s)|)
        else (t.(detected := []), 0)
      else (t.(detected := adds), 0)
  }

  datatype Selection = Selection(add: seq<string>, ignore: seq<string>, remove: seq<string>)

  /** What a request actually selects from the pending lists. */
  function Effective(s: State, sel: Selection): Selection {
    var add := Intersect(sel.add, Normalize(s.detected));
    Selection(add, Intersect(sel.ignore, Normalize(s.detected)),
              Subtract(Intersect(sel.remove, Normalize(s.removed)), add))
  }

  function ApplyStep(s: State, sel: Selection, now: int): State {
    var e := Effective(s, sel);
    var next := ApplySelected(Local(s), e.add, e.remove);
    var ignored := Merge(s.ignored, e.ignore);
    State(if next == Local(s) then s.models else Join(next, ','),
          if |e.add| > 0 then Subtract(ignored, e.add) else ignored,
          Subtract(Normalize(s.detected), e.add + e.ignore),
          Subtract(Normalize(s.removed), e.remove),
          now)
  }

  /** Settings sent along with an edit replace the stored ones before they are brought in line. */
  datatype Settings = Keep | Replace(ignored: seq<string>, detected: seq<string>, removed: seq<string>, lastCheck: int)

  function EditStep(s: State, models: string, settings: Settings): State {
    var t := if settings.Keep? then s
             else State(s.models, settings.ignored, settings.detected, settings.removed, settings.lastCheck);
    var next := Normalize(GetModels(models));
    var ignored := Subtract(Merge(t.ignored, Local(s)), next);
    t.(models := models, ignored := ignored, detected := Subtract(t.detected, next + ignored))
  }

  // ---- names survive storage --------------------------------------------------------------

  ghost predicate CommaFree(names: seq<string>) {
    forall n :: n in names ==> ',' !in n
  }

  lemma {:induction false} PiecesCommaFree(s: string)
    ensures CommaFree(Split(s, ','))
  {
    if s != "" {
      PiecesCommaFree(s[1..]);
      var rest := Split(s[1..], ',');
      assert rest[0] in rest && forall r :: r in rest[1..] ==> r in rest;
    }
  }

  lemma {:induction false} TrimLeftCommaFree(s: string)
    ensures ',' !in s ==> ',' !in TrimLeft(s, IsSpace)
  {
    if s != "" && IsSpace(s[0]) { TrimLeftCommaFree(s[1..]); }
  }

  lemma {:induction false} TrimRightCommaFree(s: string)
    ensures ',' !in s ==> ',' !in TrimRight(s, IsSpace)
  {
    if s != "" && IsSpace(s[|s| - 1]) { TrimRightCommaFree(s[..|s| - 1]); }
  }

  lemma NormalizeCommaFree(names: seq<string>)
    requires CommaFree(names)
    ensures CommaFree(Normalize(names))
  {
    NormalizeElements(names);
    forall m | m in Normalize(names) ensures ',' !in m {
      var r :| r in names && m == TrimSpace(r);
      TrimLeftCommaFree(r);
      TrimRightCommaFree(TrimLeft(r, IsSpace));
    }
  }

  lemma StoredList(names: seq<string>)
    requires Normal(names) && CommaFree(names)
    ensures GetModels(Join(names, ',')) == names && Normalize(GetModels(Join(names, ','))) == names
  {
    hide Normalize, Split, Join, Trim, IsSpace;
    NormalFixed(names);
    if names == [] {
      NothingStored();
    } else {
      JoinEnds(names, ',');
      TrimIsIdempotent(Join(names, ','), c => c == ',');
      SplitJoin(names, ',');
    }
  }

  lemma NothingStored()
    ensures Join([], ',') == ""
  {}

  lemma LocalCommaFree(s: State)
    ensures CommaFree(Local(s)) && Normal(Local(s))
  {
    NormalizeNormal(GetModels(s.models));
    if s.models != "" { PiecesCommaFree(Trim(s.models, c => c == ',')); }
    NormalizeCommaFree(GetModels(s.models));
  }

  /** A normal list is read back from storage as it was written exactly when no name has a comma. */
  lemma StoredIffCommaFree(names: seq<string>)
    requires Normal(names)
    ensures Normalize(GetModels(Join(names, ','))) == names <==> CommaFree(names)
  {
    hide Normalize, Normal, Join, GetModels;
    if CommaFree(names) {
      StoredList(names);
    } else {
      LocalCommaFree(State(Join(names, ','), [], [], [], 0));
    }
  }
}
