/**
 Renaming the keys of a ratio table, all at once, in place.
 */
module GroupRename {
  import opened OrderedSets

  /** One simultaneous rename: unrenamed keys stay and win, every other key comes from an old one. */
  ghost predicate IsRename<K(!new), V>(before: map<K, V>, renames: map<K, K>, after: map<K, V>) {
    && (forall k :: k in after <==> Stays(before, renames, k) || exists o :: Moves(before, renames, o, k))
    && (forall k :: Stays(before, renames, k) ==> after[k] == before[k])
    && (forall k :: k in after && !Stays(before, renames, k) ==>
          exists o :: Moves(before, renames, o, k) && after[k] == before[o])
  }

  ghost predicate Stays<K, V>(before: map<K, V>, renames: map<K, K>, k: K) {
    k in before && k !in renames
  }

  /** The entry of old key o is to move to key k. */
  ghost predicate Moves<K, V>(before: map<K, V>, renames: map<K, K>, o: K, k: K) {
    o in before && o in renames && renames[o] == k
  }

  // ---- the two loops along a visiting order ---------------------------------------------------

  /** An iteration over the renames visits each of them once, in an order of its own. */
  ghost predicate Visits<K(!new)>(renames: map<K, K>, order: seq<K>) {
    NoDup(order) && forall k :: k in order <==> k in renames
  }

  /** The values waiting for their new names once the old names in order have been taken out. */
  function Pending<K, V>(before: map<K, V>, renames: map<K, K>, order: seq<K>): map<K, V>
    requires forall o :: o in order ==> o in renames
  {
    if order == [] then map[]
    else
      var last := |order| - 1;
      var pending := Pending(before, renames, order[..last]);
      if order[last] in before then pending[renames[order[last]] := before[order[last]]] else pending
  }

  function Staying<K, V>(before: map<K, V>, renames: map<K, K>): map<K, V> {
    map k | k in before && k !in renames :: before[k]
  }

  /** What the table holds in the end. */
  ghost function RenameAlong<K(!new), V>(before: map<K, V>, renames: map<K, K>, order: seq<K>): map<K, V>
    requires Visits(renames, order)
  {
    Pending(before, renames, order) + Staying(before, renames)
  }

  class RatioTable<K(==, !new), V> {
    var values: map<K, V>

    constructor (values: map<K, V>)
      ensures this.values == values
    {
      this.values := values;
    }

    /** remapTopupGroupKeys: takes the old entries out first, then puts them in where there is room. */
    method Remap(renames: map<K, K>) returns (ghost order: seq<K>)
      modifies this
      ensures Visits(renames, order) && values == RenameAlong(old(values), renames, order)
    {
      hide Pending, NoDup;
      ghost var before := values;
      if |values| == 0 || |renames| == 0 {
        order := Listing(renames.Keys);
        NothingToRename(before, renames, order);
        return;
      }
      order := [];
      NothingVisited(before, renames);
      var pending: map<K, V> := map[];
      var todo := renames.Keys;
      while todo != {}
        invariant todo <= renames.Keys && NoDup(order)
        invariant forall k :: k in order <==> k in renames && k !in todo
        invariant values == Untouched(before, order)
        invariant pending == Pending(before, renames, order)
        decreases |todo|
      {
        var oldName :| oldName in todo;
        todo := todo - {oldName};
        OneVisit(before, renames, order, oldName);
        order := order + [oldName];
        if oldName in values {
          var value := values[oldName];
          values := values - {oldName};
          pending := pending[renames[oldName] := value];
        }
      }
      assert values == Staying(before, renames);
      PutBack(pending);
    }

    /** The second loop: a key that is already there is left alone, so its order does not matter. */
    method PutBack(pending: map<K, V>)
      modifies this
      ensures values == pending + old(values)
    {
      var names := pending.Keys;
      while names != {}
        invariant names <= pending.Keys
        invariant values == (pending - names) + old(values)
        decreases |names|
      {
        var newName :| newName in names;
        if newName !in values {
          values := values[newName := pending[newName]];
        }
        names := names - {newName};
      }
    }
  }

  function Untouched<K, V>(before: map<K, V>, order: seq<K>): map<K, V> {
    map k | k in before && k !in order :: before[k]
  }

  lemma NothingVisited<K, V>(before: map<K, V>, renames: map<K, K>)
    ensures NoDup<K>([]) && Untouched(before, []) == before && Pending(before, renames, []) == map[]
  {}

  /** One turn of the first loop. */
  lemma OneVisit<K, V>(before: map<K, V>, renames: map<K, K>, order: seq<K>, o: K)
    requires NoDup(order) && o !in order && forall x :: x in order + [o] ==> x in renames
    ensures NoDup(order + [o]) && Untouched(before, order + [o]) == Untouched(before, order) - {o}
    ensures (forall x :: x in order ==> x in order + [o]) && o in order + [o]
    ensures var pending := Pending(before, renames, order);
            Pending(before, renames, order + [o]) ==
            if o in Untouched(before, order) then pending[renames[o] := before[o]] else pending
  {
    assert (order + [o])[..|order|] == order;
    assert (order + [o])[|order|] == o;
    assert forall x :: x in order ==> x in order + [o];
  }

  /** Some order in which a set can be visited. */
  lemma {:induction false} Listing<K>(keys: set<K>) returns (order: seq<K>)
    ensures NoDup(order) && forall k :: k in order <==> k in keys
    decreases |keys|
  {
    order := [];
    if keys != {} {
      var k :| k in keys;
      order := Listing(keys - {k});
      order := order + [k];
    }
  }

  lemma NothingToRename<K(!new), V>(before: map<K, V>, renames: map<K, K>, order: seq<K>)
    requires (|before| == 0 || |renames| == 0) && Visits(renames, order)
    ensures RenameAlong(before, renames, order) == before
  {
    PendingProps(before, renames, order);
    FirstElement(order);
    assert Pending(before, renames, order) == map[];
  }

  /** Some visited old name is to move to k with value v. */
  ghost predicate BroughtBy<K(!new), V>(before: map<K, V>, renames: map<K, K>, order: seq<K>, k: K, v: V) {
    exists o :: o in order && Moves(before, renames, o, k) && v == before[o]
  }

  /** The pending values come from the visited old names, and none of these is missing. */
  ghost predicate Collects<K(!new), V>(before: map<K, V>, renames: map<K, K>, order: seq<K>, pending: map<K, V>) {
    (forall o, k :: o in order && Moves(before, renames, o, k) ==> k in pending) &&
    (forall k :: k in pending ==> BroughtBy(before, renames, order, k, pending[k]))
  }

  lemma {:induction false} PendingProps<K(!new), V>(before: map<K, V>, renames: map<K, K>, order: seq<K>)
    requires forall o :: o in order ==> o in renames
    ensures Collects(before, renames, order, Pending(before, renames, order))
  {
    if order != [] {
      var last := |order| - 1;
      var front, o := order[..last], order[last];
      assert order == front + [o];
      PendingProps(before, renames, front);
      var pending := Pending(before, renames, front);
      assert Pending(before, renames, order) == if o in before then pending[renames[o] := before[o]] else pending;
      forall k | k in Pending(before, renames, order)
        ensures BroughtBy(before, renames, order, k, Pending(before, renames, order)[k])
      {
        if o in before && renames[o] == k {
          assert Moves(before, renames, o, k);
        } else {
          assert BroughtBy(before, renames, front, k, pending[k]);
          var p :| p in front && Moves(before, renames, p, k) && pending[k] == before[p];
          assert p in order;
        }
      }
    }
  }

  /** A later visit replaces what an earlier one left under the same new name. */
  lemma {:induction false} PendingLater<K, V>(before: map<K, V>, renames: map<K, K>, a: seq<K>, b: seq<K>)
    requires forall o :: o in a + b ==> o in renames
    ensures (forall o :: o in a ==> o in a + b) && (forall o :: o in b ==> o in a + b)
    ensures Pending(before, renames, a + b) == Pending(before, renames, a) + Pending(before, renames, b)
    decreases |b|
  {
    if b == [] {
      assert a + b == a;
    } else {
      var last := |b| - 1;
      assert (a + b)[..|a| + last] == a + b[..last];
      assert forall o :: o in a + b[..last] ==> o in a + b;
      PendingLater(before, renames, a, b[..last]);
    }
  }

  /** Whatever the order, the result is one simultaneous rename. */
  lemma AlongIsRename<K(!new), V>(before: map<K, V>, renames: map<K, K>, order: seq<K>)
    requires Visits(renames, order)
    ensures IsRename(before, renames, RenameAlong(before, renames, order))
  {
    PendingProps(before, renames, order);
    var after := RenameAlong(before, renames, order);
    forall k ensures k in after <==> Stays(before, renames, k) || exists o :: Moves(before, renames, o, k) {
      if o :| Moves(before, renames, o, k) { assert o in order; }
      var pending := Pending(before, renames, order);
      if k in pending { assert BroughtBy(before, renames, order, k, pending[k]); }
    }
  }

  /** And every simultaneous rename is the result of some order: visit last what it keeps. */
  lemma EveryRenameIsReached<K(!new), V>(before: map<K, V>, renames: map<K, K>, after: map<K, V>)
    returns (order: seq<K>)
    requires IsRename(before, renames, after)
    ensures Visits(renames, order) && RenameAlong(before, renames, order) == after
  {
    var kept := set o | o in renames && o in before && renames[o] in after && after[renames[o]] == before[o];
    var a := Listing(renames.Keys - kept);
    var b := Listing(kept);
    order := a + b;
    ConcatNoDup(a, b);
    PendingLater(before, renames, a, b);
    PendingProps(before, renames, b);
    AlongIsRename(before, renames, order);
    var along := RenameAlong(before, renames, order);
    forall k | k in after ensures k in along && along[k] == after[k] {
      if !Stays(before, renames, k) {
        var o :| Moves(before, renames, o, k) && after[k] == before[o];
        assert o in b;
      }
    }
    forall k | k in along ensures k in after {}
  }

  /** Old keys that would meet on a free name bring the same value. */
  ghost predicate NoConflict<K(!new), V>(before: map<K, V>, renames: map<K, K>) {
    forall o, p, k :: Moves(before, renames, o, k) && Moves(before, renames, p, k) && !Stays(before, renames, k) ==>
      before[o] == before[p]
  }

  lemma SameResult<K(!new), V>(before: map<K, V>, renames: map<K, K>, after: map<K, V>, other: map<K, V>)
    requires IsRename(before, renames, after) && IsRename(before, renames, other) && NoConflict(before, renames)
    ensures other == after
  {
    assert other.Keys == after.Keys;
    forall k | k in after ensures other[k] == after[k] {
      if !Stays(before, renames, k) {
        var o :| Moves(before, renames, o, k) && after[k] == before[o];
        var p :| Moves(before, renames, p, k) && other[k] == before[p];
      }
    }
  }

  lemma OtherResult<K(!new), V>(before: map<K, V>, renames: map<K, K>, after: map<K, V>, o: K, k: K)
    requires IsRename(before, renames, after) && Moves(before, renames, o, k) && !Stays(before, renames, k)
    ensures IsRename(before, renames, after[k := before[o]])
  {}

  /** All visiting orders give the same table exactly when no two entries conflict. */
  lemma OrderInvisibleIff<K(!new), V>(before: map<K, V>, renames: map<K, K>)
    ensures (forall a, b :: Visits(renames, a) && Visits(renames, b) ==>
               RenameAlong(before, renames, a) == RenameAlong(before, renames, b)) <==>
            NoConflict(before, renames)
  {
    hide IsRename, RenameAlong;
    if NoConflict(before, renames) {
      forall a, b | Visits(renames, a) && Visits(renames, b)
        ensures RenameAlong(before, renames, a) == RenameAlong(before, renames, b)
      {
        AlongIsRename(before, renames, a);
        AlongIsRename(before, renames, b);
        SameResult(before, renames, RenameAlong(before, renames, a), RenameAlong(before, renames, b));
      }
    } else {
      var o, p, k :| Moves(before, renames, o, k) && Moves(before, renames, p, k) && !Stays(before, renames, k) &&
                     before[o] != before[p];
      var any := Listing(renames.Keys);
      var after := RenameAlong(before, renames, any);
      AlongIsRename(before, renames, any);
      OtherResult(before, renames, after, o, k);
      OtherResult(before, renames, after, p, k);
      var a := EveryRenameIsReached(before, renames, after[k := before[o]]);
      var b := EveryRenameIsReached(before, renames, after[k := before[p]]);
      assert RenameAlong(before, renames, a)[k] != RenameAlong(before, renames, b)[k];
    }
  }

  /** Different old names with different new names never conflict. */
  lemma DistinctTargets<K(!new), V>(before: map<K, V>, renames: map<K, K>)
    requires forall o, p :: o in renames && p in renames && renames[o] == renames[p] ==> o == p
    ensures NoConflict(before, renames)
  {}

  /** s takes every new name back to its old one. */
  ghost predicate Inverse<K>(r: map<K, K>, s: map<K, K>) {
    (forall o :: o in r ==> r[o] in s && s[r[o]] == o) && (forall n :: n in s ==> s[n] in r && r[s[n]] == n)
  }

  /** A rename to names not kept by other entries is undone by the inverse rename. */
  lemma InverseUndoes<K(!new), V>(before: map<K, V>, r: map<K, K>, s: map<K, K>, after: map<K, V>, back: map<K, V>)
    requires Inverse(r, s) && forall o :: o in r ==> !Stays(before, r, r[o])
    requires IsRename(before, r, after) && IsRename(after, s, back)
    ensures back == before
  {
    forall k ensures k in after <==> (k in before && k !in r) || (k in s && s[k] in before) {
      if o :| Moves(before, r, o, k) { assert s[k] == o; }
      if k in s && s[k] in before { assert Moves(before, r, s[k], k); }
    }
    forall k | k in after && !Stays(before, r, k) ensures k in s && s[k] in before && after[k] == before[s[k]] {
      var o :| Moves(before, r, o, k) && after[k] == before[o];
    }
    forall k ensures k in back <==> k in before {
      if k in before && k in r { assert Moves(after, s, r[k], k); }
      if k in back && !Stays(after, s, k) { var n :| Moves(after, s, n, k); }
    }
    forall k | k in back ensures back[k] == before[k] {
      if !Stays(after, s, k) { var n :| Moves(after, s, n, k) && back[k] == after[n]; }
    }
  }
}
