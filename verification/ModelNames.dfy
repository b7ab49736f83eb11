/**
 The ordered-set algebra on model names behind upstream reconciliation.
 */
module ModelNames {
  import opened Text
  import opened OrderedSets

  function TrimAll(models: seq<string>): seq<string> {
    if models == [] then []
    else
      var trimmed := TrimSpace(models[0]);
      if trimmed != "" then [trimmed] + TrimAll(models[1..]) else TrimAll(models[1..])
  }

  function Normalize(models: seq<string>): seq<string> {
    Uniq(TrimAll(models))
  }

  function Subtract(base: seq<string>, removed: seq<string>): seq<string> {
    Minus(Normalize(base), Normalize(removed))
  }

  function Intersect(base: seq<string>, allowed: seq<string>): seq<string> {
    Common(Normalize(base), Normalize(allowed))
  }

  /** What the appending loop of mergeModelNames computes. */
  function Merge(base: seq<string>, appended: seq<string>): seq<string> {
    Normalize(base) + Minus(Normalize(appended), Normalize(base))
  }

  function ApplySelected(origin: seq<string>, add: seq<string>, remove: seq<string>): seq<string> {
    var normalizedAdd := Normalize(add);
    var normalizedRemove := Subtract(Normalize(remove), normalizedAdd);
    Subtract(Merge(origin, normalizedAdd), normalizedRemove)
  }

  /** A list of distinct, trimmed, non-empty names. */
  ghost predicate Normal(models: seq<string>) {
    NoDup(models) && forall m :: m in models ==> m != "" && Trimmed(m, IsSpace)
  }

  lemma {:induction false} TrimAllNormal(models: seq<string>)
    ensures forall m :: m in TrimAll(models) ==> m != "" && Trimmed(m, IsSpace)
    ensures (forall m :: m in models ==> m != "" && Trimmed(m, IsSpace)) ==> TrimAll(models) == models
  {
    hide Trimmed, IsSpace;
    if models != [] {
      TrimAllNormal(models[1..]);
      TrimIsIdempotent(models[0], IsSpace);
      assert models == [models[0]] + models[1..] && models[0] in models;
      assert forall m :: m in models[1..] ==> m in models;
    }
  }

  lemma {:induction false} TrimAllElements(models: seq<string>)
    ensures forall m :: m in TrimAll(models) ==> exists r :: r in models && m == TrimSpace(r)
    ensures forall r :: r in models && TrimSpace(r) != "" ==> TrimSpace(r) in TrimAll(models)
  {
    hide TrimSpace;
    if models != [] {
      TrimAllElements(models[1..]);
      assert models == [models[0]] + models[1..];
    }
  }

  /** Normalizing gives a normal list, and a normal list is a fixed point. */
  lemma NormalizeProps(models: seq<string>)
    ensures Normal(Normalize(models))
    ensures Normal(models) ==> Normalize(models) == models
  {
    hide Trimmed;
    TrimAllNormal(models);
    UniqProps(TrimAll(models));
  }

  /** Normalizing keeps exactly the trimmed, non-empty names. */
  lemma NormalizeElements(models: seq<string>)
    ensures forall m :: m in Normalize(models) <==> m != "" && exists r :: r in models && m == TrimSpace(r)
  {
    hide TrimSpace;
    TrimAllNormal(models);
    TrimAllElements(models);
    UniqProps(TrimAll(models));
  }

  /** The names as they are once trimmed. */
  function Trims(models: seq<string>): seq<string> {
    seq(|models|, i requires 0 <= i < |models| => TrimSpace(models[i]))
  }

  lemma {:induction false} TrimAllInOrder(models: seq<string>, x: string, y: string)
    requires x != "" && y != "" && FirstIndex(TrimAll(models), x) < FirstIndex(TrimAll(models), y)
    ensures FirstIndex(Trims(models), x) < FirstIndex(Trims(models), y)
  {
    hide TrimSpace;
    assert Trims(models)[1..] == Trims(models[1..]);
    if TrimSpace(models[0]) == "" || (TrimSpace(models[0]) != x && TrimSpace(models[0]) != y) {
      TrimAllInOrder(models[1..], x, y);
    }
  }

  /** Normalizing keeps the names in the order in which they first appear. */
  lemma NormalizeInOrder(models: seq<string>)
    ensures InOrderOf(Normalize(models), Trims(models))
  {
    hide Trims, TrimAll, FirstIndex;
    var r := Normalize(models);
    UniqInOrder(TrimAll(models));
    UniqFrom(TrimAll(models));
    TrimAllNormal(models);
    forall i, j | 0 <= i < j < |r| ensures FirstIndex(Trims(models), r[i]) < FirstIndex(Trims(models), r[j]) {
      TrimAllInOrder(models, r[i], r[j]);
    }
  }

  lemma NormalFixed(models: seq<string>)
    requires Normal(models)
    ensures Normalize(models) == models
  {
    NormalizeProps(models);
  }

  lemma NormalizeNormal(models: seq<string>)
    ensures Normal(Normalize(models)) && Normalize(Normalize(models)) == Normalize(models)
  {
    NormalizeProps(models);
    NormalFixed(Normalize(models));
  }

  lemma FilterNormal(models: seq<string>, keep: string -> bool)
    requires Normal(models)
    ensures Normal(Filter(models, keep))
    ensures forall m :: m in Filter(models, keep) <==> m in models && keep(m)
  {
    FilterProps(models, keep);
  }

  lemma SubtractProps(base: seq<string>, removed: seq<string>)
    ensures Normal(Subtract(base, removed))
    ensures forall m :: m in Subtract(base, removed) <==> m in Normalize(base) && m !in Normalize(removed)
    ensures InOrderOf(Subtract(base, removed), Normalize(base))
  {
    NormalizeNormal(base);
    var r := Normalize(removed);
    FilterNormal(Normalize(base), x => x !in r);
    FilterInOrder(Normalize(base), x => x !in r);
  }

  lemma IntersectProps(base: seq<string>, allowed: seq<string>)
    ensures Normal(Intersect(base, allowed))
    ensures forall m :: m in Intersect(base, allowed) <==> m in Normalize(base) && m in Normalize(allowed)
    ensures InOrderOf(Intersect(base, allowed), Normalize(base))
  {
    NormalizeNormal(base);
    var a := Normalize(allowed);
    FilterNormal(Normalize(base), x => x in a);
    FilterInOrder(Normalize(base), x => x in a);
  }

  lemma MergeProps(base: seq<string>, appended: seq<string>)
    ensures Normal(Merge(base, appended))
    ensures forall m :: m in Merge(base, appended) <==> m in Normalize(base) || m in Normalize(appended)
    ensures var n := |Normalize(base)|;
            n <= |Merge(base, appended)| && Merge(base, appended)[..n] == Normalize(base) &&
            InOrderOf(Merge(base, appended)[n..], Normalize(appended))
  {
    hide InOrderOf, Trimmed;
    NormalizeNormal(base);
    NormalizeNormal(appended);
    var b := Normalize(base);
    FilterNormal(Normalize(appended), x => x !in b);
    FilterInOrder(Normalize(appended), x => x !in b);
    ConcatNoDup(b, Minus(Normalize(appended), b));
    assert Merge(base, appended)[|b|..] == Minus(Normalize(appended), b);
  }

  /** mergeModelNames: walks the appended names once, remembering those already present. */
  method MergeModelNames(base: seq<string>, appended: seq<string>) returns (merged: seq<string>)
    ensures merged == Merge(base, appended)
  {
    hide Normalize, Trimmed;
    var origin, more := Normalize(base), Normalize(appended);
    NormalizeNormal(appended);
    merged := origin;
    var seen := set m | m in merged;
    var i := 0;
    while i < |more|
      invariant 0 <= i <= |more|
      invariant merged == origin + Minus(more[..i], origin)
      invariant forall m :: m in seen <==> m in merged
    {
      assert more[..i + 1] == more[..i] + [more[i]];
      FilterConcat(more[..i], [more[i]], x => x !in origin);
      FilterProps(more[..i], x => x !in origin);
      assert more[i] !in more[..i];
      if more[i] !in seen {
        seen := seen + {more[i]};
        merged := merged + [more[i]];
      }
      i := i + 1;
    }
    assert more[..i] == more;
  }

  /** Origin order first, then the genuinely new names in the order they were selected; add beats remove. */
  lemma ApplySelectedShape(origin: seq<string>, add: seq<string>, remove: seq<string>)
    ensures var o, a := Normalize(origin), Normalize(add);
            ApplySelected(origin, add, remove) == Minus(o, Minus(Normalize(remove), a)) + Minus(a, o)
    ensures Normal(ApplySelected(origin, add, remove))
    ensures forall m :: m in ApplySelected(origin, add, remove) <==>
              m in Normalize(add) || (m in Normalize(origin) && m !in Normalize(remove))
  {
    var o, a, r := Normalize(origin), Normalize(add), Normalize(remove);
    NormalizeNormal(origin);
    NormalizeNormal(add);
    NormalizeNormal(remove);
    var gone := Minus(r, a);
    SubtractProps(r, a);
    NormalFixed(gone);
    MergeProps(origin, a);
    NormalFixed(Merge(origin, a));
    assert ApplySelected(origin, add, remove) == Minus(o + Minus(a, o), gone);
    FilterConcat(o, Minus(a, o), x => x !in gone);
    FilterProps(a, x => x !in o);
    FilterProps(Minus(a, o), x => x !in gone);
    SubtractProps(Merge(origin, a), gone);
  }
}
