/**
 Ordered sets as duplicate-free lists: deduplication, filtering and what they preserve.
 */
module OrderedSets {

  ghost predicate NoDup<T>(s: seq<T>) {
    forall i, j :: 0 <= i < j < |s| ==> s[i] != s[j]
  }

  /** Keeps the first occurrence of each element. */
  function Uniq<T(==)>(s: seq<T>): seq<T> {
    if s == [] then []
    else
      var front := Uniq(s[..|s| - 1]);
      var last := s[|s| - 1];
      if last in front then front else front + [last]
  }

  function Filter<T>(s: seq<T>, keep: T -> bool): seq<T> {
    if s == [] then []
    else if keep(s[0]) then [s[0]] + Filter(s[1..], keep)
    else Filter(s[1..], keep)
  }

  function Minus<T(==)>(s: seq<T>, t: seq<T>): seq<T> {
    Filter(s, x => x !in t)
  }

  function Common<T(==)>(s: seq<T>, t: seq<T>): seq<T> {
    Filter(s, x => x in t)
  }

  lemma {:induction false} UniqProps<T>(s: seq<T>)
    ensures NoDup(Uniq(s))
    ensures forall x :: x in Uniq(s) <==> x in s
    ensures NoDup(s) ==> Uniq(s) == s
  {
    if s != [] {
      var front := s[..|s| - 1];
      UniqProps(front);
      assert s == front + [s[|s| - 1]];
    }
  }

  lemma {:induction false} FilterMembers<T>(s: seq<T>, keep: T -> bool)
    ensures forall x :: x in Filter(s, keep) <==> x in s && keep(x)
    ensures |Filter(s, keep)| <= |s|
  {
    if s != [] {
      FilterMembers(s[1..], keep);
      assert s == [s[0]] + s[1..];
    }
  }

  lemma {:induction false} FilterKeepsAll<T>(s: seq<T>, keep: T -> bool)
    requires forall x :: x in s ==> keep(x)
    ensures Filter(s, keep) == s
  {
    if s != [] {
      assert s[0] in s && forall x :: x in s[1..] ==> x in s;
      FilterKeepsAll(s[1..], keep);
    }
  }

  lemma {:induction false} FilterNoDup<T>(s: seq<T>, keep: T -> bool)
    requires NoDup(s)
    ensures NoDup(Filter(s, keep))
  {
    if s != [] {
      var rest := Filter(s[1..], keep);
      FilterNoDup(s[1..], keep);
      FilterMembers(s[1..], keep);
      assert s[0] !in s[1..];
      ConcatNoDup([s[0]], rest);
    }
  }

  lemma FilterProps<T>(s: seq<T>, keep: T -> bool)
    ensures forall x :: x in Filter(s, keep) <==> x in s && keep(x)
    ensures NoDup(s) ==> NoDup(Filter(s, keep))
    ensures (forall x :: x in s ==> keep(x)) ==> Filter(s, keep) == s
    ensures |Filter(s, keep)| <= |s|
  {
    hide Filter, NoDup;
    FilterMembers(s, keep);
    if NoDup(s) { FilterNoDup(s, keep); }
    if forall x :: x in s ==> keep(x) { FilterKeepsAll(s, keep); }
  }

  lemma ConcatParts<T>(a: seq<T>, b: seq<T>, c: seq<T>)
    ensures a + b + c == a + (b + c) && (a + b + c)[..|a|] == a && (a + b + c)[|a|..] == b + c
  {}

  lemma FilterNone<T>(keep: T -> bool)
    ensures Filter([], keep) == []
  {}

  lemma {:induction false} FilterConcat<T>(s: seq<T>, t: seq<T>, keep: T -> bool)
    ensures Filter(s + t, keep) == Filter(s, keep) + Filter(t, keep)
  {
    if s == [] {
      assert s + t == t;
    } else {
      FilterConcat(s[1..], t, keep);
      assert (s + t)[1..] == s[1..] + t;
      var rest := Filter(s[1..], keep);
      assert [s[0]] + (rest + Filter(t, keep)) == ([s[0]] + rest) + Filter(t, keep);
    }
  }

  lemma {:induction false} FilterSame<T>(s: seq<T>, p: T -> bool, q: T -> bool)
    requires forall x :: x in s ==> p(x) == q(x)
    ensures Filter(s, p) == Filter(s, q)
  {
    if s != [] {
      assert s[0] in s && forall x :: x in s[1..] ==> x in s;
      FilterSame(s[1..], p, q);
    }
  }

  lemma FirstElement<T>(s: seq<T>)
    ensures s == [] || s[0] in s
  {}

  lemma ConcatNoDup<T>(s: seq<T>, t: seq<T>)
    requires NoDup(s) && NoDup(t) && forall x :: x in s ==> x !in t
    ensures NoDup(s + t)
  {
    forall i, j | 0 <= i < j < |s + t| ensures (s + t)[i] != (s + t)[j] {
      if i < |s| <= j { assert s[i] in s && t[j - |s|] in t; }
    }
  }

  // ---- order --------------------------------------------------------------------------------------

  /** Where an element first stands, or the length when it does not occur. */
  function FirstIndex<T(==)>(s: seq<T>, x: T): nat {
    if s == [] || s[0] == x then 0 else 1 + FirstIndex(s[1..], x)
  }

  /** The elements of r stand in the order of their first occurrence in s. */
  ghost predicate InOrderOf<T>(r: seq<T>, s: seq<T>) {
    forall i, j :: 0 <= i < j < |r| ==> FirstIndex(s, r[i]) < FirstIndex(s, r[j])
  }

  lemma {:induction false} FirstIndexConcat<T>(s: seq<T>, t: seq<T>, x: T)
    ensures x in s ==> FirstIndex(s + t, x) == FirstIndex(s, x) < |s|
    ensures x !in s ==> FirstIndex(s + t, x) == |s| + FirstIndex(t, x)
  {
    if s == [] {
      assert s + t == t;
    } else {
      assert (s + t)[1..] == s[1..] + t;
      FirstIndexConcat(s[1..], t, x);
    }
  }

  ghost predicate AllFrom<T>(r: seq<T>, s: seq<T>) {
    forall i :: 0 <= i < |r| ==> r[i] in s
  }

  lemma {:induction false} UniqFrom<T>(s: seq<T>)
    ensures AllFrom(Uniq(s), s)
  {
    if s != [] { UniqFrom(s[..|s| - 1]); }
  }

  lemma {:induction false} FilterFrom<T>(s: seq<T>, keep: T -> bool)
    ensures AllFrom(Filter(s, keep), s)
  {
    if s != [] { FilterFrom(s[1..], keep); }
  }

  /** More elements behind s leave the order alone, and a new one comes last. */
  lemma InOrderGrows<T>(r: seq<T>, s: seq<T>, x: T)
    requires InOrderOf(r, s) && AllFrom(r, s)
    ensures InOrderOf(r, s + [x])
    ensures x !in s ==> InOrderOf(r + [x], s + [x])
  {
    hide FirstIndex;
    var t := s + [x];
    forall i | 0 <= i < |r| ensures FirstIndex(t, r[i]) == FirstIndex(s, r[i]) < |s| {
      FirstIndexConcat(s, [x], r[i]);
    }
    FirstIndexConcat(s, [x], x);
    assert InOrderOf(r, t);
    if x !in s {
      forall i, j | 0 <= i < j < |r + [x]| ensures FirstIndex(t, (r + [x])[i]) < FirstIndex(t, (r + [x])[j]) {
        assert (r + [x])[i] == r[i];
        if j < |r| { assert (r + [x])[j] == r[j]; }
      }
    }
  }

  lemma {:induction false} UniqInOrder<T>(s: seq<T>)
    ensures InOrderOf(Uniq(s), s)
  {
    hide InOrderOf;
    NothingInOrder<T>();
    if s != [] {
      var front, last := s[..|s| - 1], s[|s| - 1];
      assert s == front + [last];
      UniqInOrder(front);
      UniqProps(front);
      UniqFrom(front);
      InOrderGrows(Uniq(front), front, last);
    }
  }

  lemma {:induction false} FilterInOrder<T>(s: seq<T>, keep: T -> bool)
    requires NoDup(s)
    ensures InOrderOf(Filter(s, keep), s)
  {
    hide InOrderOf, Filter, NoDup;
    NothingInOrder<T>();
    FilterNone(keep);
    if s != [] {
      var front, last := s[..|s| - 1], s[|s| - 1];
      assert s == front + [last];
      LastIsNew(s);
      FilterInOrder(front, keep);
      FilterFrom(front, keep);
      FilterConcat(front, [last], keep);
      FilterOne(last, keep);
      InOrderGrows(Filter(front, keep), front, last);
      assert Filter(front, keep) + [] == Filter(front, keep);
    }
  }

  lemma NothingInOrder<T>()
    ensures forall s: seq<T> :: InOrderOf([], s)
  {}

  lemma LastIsNew<T>(s: seq<T>)
    requires NoDup(s) && s != []
    ensures NoDup(s[..|s| - 1]) && s[|s| - 1] !in s[..|s| - 1]
  {}

  lemma FilterOne<T>(x: T, keep: T -> bool)
    ensures Filter([x], keep) == if keep(x) then [x] else []
  {}
}
