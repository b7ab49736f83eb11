/**
 Key management of a multi-key channel as steps on values.

 Per-key status, disabled time and disabled reason are maps by key index; a missing status means
 enabled, and a nil map reads like an empty one.
 */
module MultiKey {
  import opened OrderedSets

  const ENABLED := 1
  const MANUALLY_DISABLED := 2
  const AUTO_DISABLED := 3
  const ALL_KEYS_DISABLED := "All keys are disabled"

  datatype Keyring = Keyring(keys: seq<string>, status: map<int, int>, time: map<int, int>, reason: map<int, string>)

  datatype Channel = Channel(ring: Keyring, status: int, why: string, since: int)

  function StatusOf(r: Keyring, i: int): int {
    if i in r.status then r.status[i] else ENABLED
  }

  /** What get_key_status shows: time and reason only for a key that is not enabled. */
  datatype KeyView = KeyView(key: string, status: int, time: int, reason: string)

  function Visible(r: Keyring, i: nat): KeyView
    requires i < |r.keys|
  {
    var status := StatusOf(r, i);
    KeyView(r.keys[i], status,
            if status != ENABLED && i in r.time then r.time[i] else 0,
            if status != ENABLED && i in r.reason then r.reason[i] else "")
  }

  function View(r: Keyring): (v: seq<KeyView>)
    ensures |v| == |r.keys| && forall i :: 0 <= i < |v| ==> v[i] == Visible(r, i)
  {
    seq(|r.keys|, i requires 0 <= i < |r.keys| => Visible(r, i))
  }

  predicate HasEnabled(r: Keyring) {
    exists i :: 0 <= i < |r.keys| && StatusOf(r, i) == ENABLED
  }

  function DisableIfUnavailable(c: Channel, now: int): Channel {
    if HasEnabled(c.ring) || c.status != ENABLED then c
    else c.(status := MANUALLY_DISABLED, why := ALL_KEYS_DISABLED, since := now)
  }

  function RestoreIfAvailable(c: Channel, now: int): Channel {
    if c.status != MANUALLY_DISABLED || !HasEnabled(c.ring) || c.why != ALL_KEYS_DISABLED then c
    else c.(status := ENABLED, why := "", since := now)
  }

  /** The indices below n that are kept, in order. */
  function Kept(n: nat, keep: int -> bool): (s: seq<int>)
    ensures forall j :: 0 <= j < |s| ==> 0 <= s[j] < n && keep(s[j])
    ensures |s| <= n
  {
    if n == 0 then [] else Kept(n - 1, keep) + if keep(n - 1) then [n - 1] else []
  }

  /** Every index below n except i. */
  function AllBut(n: nat, i: int): (s: seq<int>)
    ensures forall j :: 0 <= j < |s| ==> 0 <= s[j] < n
  {
    Kept(n, k => k != i)
  }

  /** The indices below n whose keys are not auto-disabled. */
  function Survivors(r: Keyring, n: nat): (s: seq<int>)
    ensures forall j :: 0 <= j < |s| ==> 0 <= s[j] < n
  {
    Kept(n, k => StatusOf(r, k) != AUTO_DISABLED)
  }

  /** The indices below n whose keys are enabled. */
  function EnabledBelow(r: Keyring, n: nat): (s: seq<int>)
    ensures forall j :: 0 <= j < |s| ==> 0 <= s[j] < n && StatusOf(r, s[j]) == ENABLED
  {
    Kept(n, k => StatusOf(r, k) == ENABLED)
  }

  ghost predicate Indices(r: Keyring, s: seq<int>) {
    forall j :: 0 <= j < |s| ==> 0 <= s[j] < |r.keys|
  }

  /** The records at the given indices, renumbered by position. */
  function Pick<V>(m: map<int, V>, s: seq<int>): map<int, V> {
    map j | 0 <= j < |s| && s[j] in m :: m[s[j]]
  }

  /** The records of keys that are not enabled. */
  function OfDisabled<V>(r: Keyring, m: map<int, V>): map<int, V> {
    map i | i in m && StatusOf(r, i) != ENABLED :: m[i]
  }

  /** The keys at the given indices with their records renumbered; all says whether enabled keys keep theirs. */
  function Renumber(r: Keyring, s: seq<int>, all: bool): Keyring
    requires Indices(r, s)
  {
    Keyring(seq(|s|, j requires 0 <= j < |s| => r.keys[s[j]]),
            Pick(OfDisabled(r, r.status), s),
            Pick(if all then r.time else OfDisabled(r, r.time), s),
            Pick(if all then r.reason else OfDisabled(r, r.reason), s))
  }

  function DisableKeyStep(c: Channel, i: int, now: int): Channel {
    if 0 <= i < |c.ring.keys| then
      DisableIfUnavailable(c.(ring := c.ring.(status := c.ring.status[i := MANUALLY_DISABLED])), now)
    else c
  }

  function EnableKeyStep(c: Channel, i: int, now: int): Channel {
    if 0 <= i < |c.ring.keys| then
      var r := c.ring;
      RestoreIfAvailable(c.(ring := Keyring(r.keys, r.status - {i}, r.time - {i}, r.reason - {i})), now)
    else c
  }

  function EnableAllStep(c: Channel, now: int): Channel {
    RestoreIfAvailable(c.(ring := Keyring(c.ring.keys, map[], map[], map[])), now)
  }

  /** The status records once every enabled key below n is manually disabled. */
  function DisabledBelow(r: Keyring, n: nat): map<int, int> {
    r.status + map i | 0 <= i < n && StatusOf(r, i) == ENABLED :: MANUALLY_DISABLED
  }

  function DisabledAll(r: Keyring): Keyring {
    r.(status := DisabledBelow(r, |r.keys|))
  }

  function DisableAllStep(c: Channel, now: int): Channel {
    if HasEnabled(c.ring) then DisableIfUnavailable(c.(ring := DisabledAll(c.ring)), now) else c
  }

  function DeleteKeyStep(c: Channel, i: int, now: int): Channel {
    if 0 <= i < |c.ring.keys| && |c.ring.keys| > 1 then
      DisableIfUnavailable(c.(ring := Renumber(c.ring, AllBut(|c.ring.keys|, i), true)), now)
    else c
  }

  function DeleteDisabledStep(c: Channel, now: int): Channel {
    if exists i :: 0 <= i < |c.ring.keys| && StatusOf(c.ring, i) == AUTO_DISABLED then
      DisableIfUnavailable(c.(ring := Renumber(c.ring, Survivors(c.ring, |c.ring.keys|), false)), now)
    else c
  }

  // ---- deletion moves every survivor's record along -----------------------------------------

  /** Renumbering is invisible except for which keys are left. */
  lemma RenumberView(r: Keyring, s: seq<int>, all: bool)
    requires Indices(r, s)
    ensures var v := View(Renumber(r, s, all));
            |v| == |s| && forall j :: 0 <= j < |s| ==> v[j] == View(r)[s[j]]
  {}

  lemma {:induction false} KeptAllBut(n: nat, i: int)
    requires 0 <= i < n
    ensures var s := AllBut(n, i);
            |s| == n - 1 && forall j :: 0 <= j < n - 1 ==> s[j] == if j < i then j else j + 1
  {
    if i == n - 1 {
      KeptAll(n - 1, k => k != i);
    } else {
      KeptAllBut(n - 1, i);
    }
  }

  lemma {:induction false} KeptAll(n: nat, keep: int -> bool)
    requires forall k :: 0 <= k < n ==> keep(k)
    ensures Kept(n, keep) == seq(n, k => k)
  {
    if n > 0 { KeptAll(n - 1, keep); }
  }

  /** Taking the kept positions of a list is filtering it. */
  lemma {:induction false} KeptFilters<T>(v: seq<T>, n: nat, keep: int -> bool, want: T -> bool)
    requires n <= |v| && forall k :: 0 <= k < n ==> keep(k) == want(v[k])
    ensures var s := Kept(n, keep); Filter(v[..n], want) == seq(|s|, j requires 0 <= j < |s| => v[s[j]])
  {
    if n > 0 {
      KeptFilters(v, n - 1, keep, want);
      assert v[..n] == v[..n - 1] + [v[n - 1]];
      FilterConcat(v[..n - 1], [v[n - 1]], want);
    }
  }

  /** delete_key removes one key; every other key keeps its place in the order and its visible record. */
  lemma DeleteKeyView(c: Channel, i: int, now: int)
    requires 0 <= i < |c.ring.keys| && |c.ring.keys| > 1
    ensures var v := View(c.ring); View(DeleteKeyStep(c, i, now).ring) == v[..i] + v[i + 1..]
  {
    hide Renumber, Visible, AllBut, HasEnabled;
    var v, s := View(c.ring), AllBut(|c.ring.keys|, i);
    KeptAllBut(|c.ring.keys|, i);
    RenumberView(c.ring, s, true);
    assert DeleteKeyStep(c, i, now).ring == Renumber(c.ring, s, true);
    assert View(Renumber(c.ring, s, true)) == v[..i] + v[i + 1..];
  }

  predicate NotAuto(k: KeyView) {
    k.status != AUTO_DISABLED
  }

  lemma SurvivorsFilter(r: Keyring, n: nat)
    requires n <= |r.keys|
    ensures var s := Survivors(r, n);
            Filter(View(r)[..n], NotAuto) == seq(|s|, j requires 0 <= j < |s| => View(r)[s[j]])
  {
    KeptFilters(View(r), n, k => StatusOf(r, k) != AUTO_DISABLED, NotAuto);
  }

  lemma StatusesShown(r: Keyring)
    ensures forall x :: x in View(r) ==> exists i :: 0 <= i < |r.keys| && x.status == StatusOf(r, i)
  {
    forall x | x in View(r) ensures exists i :: 0 <= i < |r.keys| && x.status == StatusOf(r, i) {
      var i :| 0 <= i < |View(r)| && View(r)[i] == x;
      assert x.status == StatusOf(r, i);
    }
  }

  /** delete_disabled_keys keeps exactly the keys that are not auto-disabled, in order, as they were shown. */
  lemma DeleteDisabledView(c: Channel, now: int)
    ensures View(DeleteDisabledStep(c, now).ring) == Filter(View(c.ring), NotAuto)
  {
    hide Renumber, Survivors, HasEnabled, Visible;
    var v, n := View(c.ring), |c.ring.keys|;
    StatusesShown(c.ring);
    if exists i :: 0 <= i < n && StatusOf(c.ring, i) == AUTO_DISABLED {
      assert DeleteDisabledStep(c, now).ring == Renumber(c.ring, Survivors(c.ring, n), false);
      RenumberView(c.ring, Survivors(c.ring, n), false);
      SurvivorsFilter(c.ring, n);
      assert v[..n] == v;
    } else {
      FilterProps(v, NotAuto);
    }
  }

  /** Availability can be read off what is shown. */
  lemma EnabledByView(r: Keyring)
    ensures HasEnabled(r) <==> exists x :: x in View(r) && x.status == ENABLED
  {
    if HasEnabled(r) {
      var i :| 0 <= i < |r.keys| && StatusOf(r, i) == ENABLED;
      assert View(r)[i] in View(r);
    }
  }

  /** delete_key on every auto-disabled index below n, from the highest down. */
  function DeleteOneByOne(c: Channel, n: nat, now: int): Channel
    decreases n
  {
    if n == 0 then c
    else
      var e := if StatusOf(c.ring, n - 1) == AUTO_DISABLED then DeleteKeyStep(c, n - 1, now) else c;
      DeleteOneByOne(e, n - 1, now)
  }

  /** What one round of the one-by-one deletion does to the view and the status. */
  lemma OneRound(c: Channel, n: nat, now: int)
    requires n < |c.ring.keys| && exists x :: x in View(c.ring) && NotAuto(x)
    ensures var v := View(c.ring);
            var e := if StatusOf(c.ring, n) == AUTO_DISABLED then DeleteKeyStep(c, n, now) else c;
            View(e.ring) == v[..n] + Filter([v[n]], NotAuto) + v[n + 1..] &&
            (HasEnabled(e.ring) <==> HasEnabled(c.ring)) && (exists x :: x in View(e.ring) && NotAuto(x)) &&
            e == if NotAuto(v[n]) then c else DisableIfUnavailable(c.(ring := e.ring), now)
  {
    hide DeleteKeyStep, HasEnabled, Visible, DisableIfUnavailable;
    var v := View(c.ring);
    ViewStatus(c.ring, n);
    if NotAuto(v[n]) {
      assert Filter([v[n]], NotAuto) == [v[n]];
      assert v == v[..n] + [v[n]] + v[n + 1..];
    } else {
      DeleteAutoKey(c, n, now);
      assert Filter([v[n]], NotAuto) == [];
      assert v[..n] + [] == v[..n];
    }
  }

  /** Filtering one more element at the end of the filtered part. */
  lemma FilterFurther<T>(v: seq<T>, w: seq<T>, n: nat, keep: T -> bool)
    requires 0 < n <= |v| && w == v[..n - 1] + Filter([v[n - 1]], keep) + v[n..]
    ensures Filter(w[..n - 1], keep) + w[n - 1..] == Filter(v[..n], keep) + v[n..]
  {
    hide Filter;
    var front, mid, rest := v[..n - 1], Filter([v[n - 1]], keep), v[n..];
    ConcatParts(front, mid, rest);
    assert v[..n] == front + [v[n - 1]];
    FilterConcat(front, [v[n - 1]], keep);
    ConcatParts(Filter(front, keep), mid, rest);
  }

  lemma OneByOneUnfolds(c: Channel, n: nat, now: int)
    ensures DeleteOneByOne(c, n, now) ==
            if n == 0 then c
            else DeleteOneByOne(if StatusOf(c.ring, n - 1) == AUTO_DISABLED then DeleteKeyStep(c, n - 1, now) else c,
                                n - 1, now)
  {}

  lemma {:induction false} OneByOneView(c: Channel, n: nat, now: int)
    requires n <= |c.ring.keys| && exists x :: x in View(c.ring) && NotAuto(x)
    ensures var v := View(c.ring); View(DeleteOneByOne(c, n, now).ring) == Filter(v[..n], NotAuto) + v[n..]
    decreases n
  {
    hide DeleteKeyStep, HasEnabled, View, DisableIfUnavailable, NotAuto, StatusOf, Filter, DeleteOneByOne;
    var v := View(c.ring);
    OneByOneUnfolds(c, n, now);
    if n > 0 {
      OneRound(c, n - 1, now);
      var e := if StatusOf(c.ring, n - 1) == AUTO_DISABLED then DeleteKeyStep(c, n - 1, now) else c;
      OneByOneView(e, n - 1, now);
      FilterFurther(v, View(e.ring), n, NotAuto);
    } else {
      FilterNone(NotAuto);
      assert v[..0] == [] && v[0..] == v;
    }
  }

  predicate AnyAuto(v: seq<KeyView>, n: nat)
    requires n <= |v|
  {
    n > 0 && (!NotAuto(v[n - 1]) || AnyAuto(v, n - 1))
  }

  lemma {:induction false} AnyAutoProps(v: seq<KeyView>, w: seq<KeyView>, n: nat)
    requires n <= |v| && n <= |w| && v[..n] == w[..n]
    ensures AnyAuto(v, n) == AnyAuto(w, n)
    ensures AnyAuto(v, n) <==> exists i :: 0 <= i < n && !NotAuto(v[i])
  {
    if n > 0 {
      assert v[n - 1] == v[..n][n - 1] == w[n - 1];
      assert v[..n - 1] == v[..n][..n - 1] && w[..n - 1] == w[..n][..n - 1];
      AnyAutoProps(v, w, n - 1);
    }
  }

  /** The channel's status once the keys below n are through, when some key is not auto-disabled. */
  function StatusAfter(c: Channel, auto: bool, now: int): (int, string, int) {
    if auto && !HasEnabled(c.ring) && c.status == ENABLED then (MANUALLY_DISABLED, ALL_KEYS_DISABLED, now)
    else (c.status, c.why, c.since)
  }

  lemma OneRoundStatus(c: Channel, n: nat, now: int)
    requires n < |c.ring.keys| && exists x :: x in View(c.ring) && NotAuto(x)
    ensures var v := View(c.ring);
            var e := if StatusOf(c.ring, n) == AUTO_DISABLED then DeleteKeyStep(c, n, now) else c;
            n <= |View(e.ring)| && View(e.ring)[..n] == v[..n] && (exists x :: x in View(e.ring) && NotAuto(x)) &&
            (HasEnabled(e.ring) <==> HasEnabled(c.ring)) &&
            (e.status, e.why, e.since) == StatusAfter(c, !NotAuto(v[n]), now)
  {
    hide DeleteKeyStep, HasEnabled, View, NotAuto, StatusOf, Filter;
    OneRound(c, n, now);
    var v := View(c.ring);
    ConcatParts(v[..n], Filter([v[n]], NotAuto), v[n + 1..]);
  }

  lemma {:induction false} OneByOneStatus(c: Channel, n: nat, now: int)
    requires n <= |c.ring.keys| && exists x :: x in View(c.ring) && NotAuto(x)
    ensures var d := DeleteOneByOne(c, n, now);
            (d.status, d.why, d.since) == StatusAfter(c, AnyAuto(View(c.ring), n), now)
    decreases n
  {
    hide DeleteKeyStep, HasEnabled, View, NotAuto, StatusOf, DeleteOneByOne;
    OneByOneUnfolds(c, n, now);
    if n > 0 {
      OneRoundStatus(c, n - 1, now);
      var e := if StatusOf(c.ring, n - 1) == AUTO_DISABLED then DeleteKeyStep(c, n - 1, now) else c;
      AnyAutoProps(View(c.ring), View(e.ring), n - 1);
      OneByOneStatus(e, n - 1, now);
    }
  }

  lemma ViewStatus(r: Keyring, i: nat)
    requires i < |r.keys|
    ensures Visible(r, i).status == StatusOf(r, i)
  {}

  /** Deleting one auto-disabled key while another kind of key exists. */
  lemma DeleteAutoKey(c: Channel, i: nat, now: int)
    requires i < |c.ring.keys| && !NotAuto(View(c.ring)[i]) && exists x :: x in View(c.ring) && NotAuto(x)
    ensures var v, e := View(c.ring), DeleteKeyStep(c, i, now);
            View(e.ring) == v[..i] + v[i + 1..] && (HasEnabled(e.ring) <==> HasEnabled(c.ring)) &&
            (exists x :: x in View(e.ring) && NotAuto(x)) && e == DisableIfUnavailable(c.(ring := e.ring), now)
  {
    hide Visible, HasEnabled, Renumber, Kept;
    var v := View(c.ring);
    var x :| x in v && NotAuto(x);
    var j :| 0 <= j < |v| && v[j] == x;
    DeleteKeyView(c, i, now);
    var w := v[..i] + v[i + 1..];
    assert v == v[..i] + [v[i]] + v[i + 1..];
    assert forall y :: y in v <==> y in w || y == v[i];
    EnabledByView(c.ring);
    EnabledByView(DeleteKeyStep(c, i, now).ring);
  }

  /** delete_disabled_keys is delete_key on each auto-disabled key, highest first, when some key is of another kind. */
  lemma BatchDeleteIsOneByOne(c: Channel, now: int)
    requires exists i :: 0 <= i < |c.ring.keys| && StatusOf(c.ring, i) != AUTO_DISABLED
    ensures var one, batch := DeleteOneByOne(c, |c.ring.keys|, now), DeleteDisabledStep(c, now);
            View(one.ring) == View(batch.ring) && one.ring.keys == batch.ring.keys &&
            (one.status, one.why, one.since) == (batch.status, batch.why, batch.since)
  {
    hide DeleteKeyStep, HasEnabled, Renumber, Kept, DeleteOneByOne, Visible, NotAuto;
    var v, n := View(c.ring), |c.ring.keys|;
    var one, batch := DeleteOneByOne(c, n, now), DeleteDisabledStep(c, now);
    AutoByView(c.ring);
    assert View(one.ring) == View(batch.ring) by {
      OneByOneView(c, n, now);
      assert v[..n] == v && v[n..] == [];
      DeleteDisabledView(c, now);
    }
    KeysByView(one.ring, batch.ring);
    OneByOneStatus(c, n, now);
    AnyAutoProps(v, v, n);
    DeletingAutoKeepsEnabled(c, now);
  }

  lemma DeletingAutoKeepsEnabled(c: Channel, now: int)
    ensures HasEnabled(DeleteDisabledStep(c, now).ring) <==> HasEnabled(c.ring)
  {
    hide HasEnabled, Visible, DeleteDisabledStep;
    DeleteDisabledView(c, now);
    FilterProps(View(c.ring), NotAuto);
    EnabledByView(c.ring);
    EnabledByView(DeleteDisabledStep(c, now).ring);
  }

  lemma {:induction false} OneByOneLeavesOne(c: Channel, n: nat, now: int)
    requires |c.ring.keys| > 0
    ensures |DeleteOneByOne(c, n, now).ring.keys| > 0
    decreases n
  {
    if n > 0 {
      var e := if StatusOf(c.ring, n - 1) == AUTO_DISABLED then DeleteKeyStep(c, n - 1, now) else c;
      if 0 < n <= |c.ring.keys| && |c.ring.keys| > 1 { KeptAllBut(|c.ring.keys|, n - 1); }
      OneByOneLeavesOne(e, n - 1, now);
    }
  }

  /** With every key auto-disabled the two differ: the batch empties the list, delete_key spares the last key. */
  lemma BatchEmptiesAllAuto(c: Channel, now: int)
    requires |c.ring.keys| > 0 && forall i :: 0 <= i < |c.ring.keys| ==> StatusOf(c.ring, i) == AUTO_DISABLED
    ensures DeleteDisabledStep(c, now).ring.keys == [] && DeleteOneByOne(c, |c.ring.keys|, now).ring.keys != []
  {
    var v, batch := View(c.ring), DeleteDisabledStep(c, now);
    DeleteDisabledView(c, now);
    FilterProps(v, NotAuto);
    FirstElement(Filter(v, NotAuto));
    assert |View(batch.ring)| == |batch.ring.keys|;
    OneByOneLeavesOne(c, |c.ring.keys|, now);
  }

  lemma KeysByView(a: Keyring, b: Keyring)
    requires View(a) == View(b)
    ensures a.keys == b.keys
  {
    forall i | 0 <= i < |a.keys| ensures a.keys[i] == b.keys[i] {
      assert View(a)[i].key == View(b)[i].key;
    }
  }

  lemma AutoByView(r: Keyring)
    ensures (exists i :: 0 <= i < |r.keys| && StatusOf(r, i) == AUTO_DISABLED) <==>
            exists i :: 0 <= i < |r.keys| && !NotAuto(View(r)[i])
    ensures (exists i :: 0 <= i < |r.keys| && StatusOf(r, i) != AUTO_DISABLED) ==>
            exists x :: x in View(r) && NotAuto(x)
  {
    if i :| 0 <= i < |r.keys| && StatusOf(r, i) == AUTO_DISABLED {
      assert !NotAuto(View(r)[i]);
    }
    if i :| 0 <= i < |r.keys| && StatusOf(r, i) != AUTO_DISABLED {
      assert View(r)[i] in View(r) && NotAuto(View(r)[i]);
    }
  }

  // ---- the records themselves -------------------------------------------------------------------

  /** Where the records of a renumbering come from. */
  lemma RenumberRecords(r: Keyring, s: seq<int>, all: bool)
    requires Indices(r, s)
    ensures var d := Renumber(r, s, all);
            |d.keys| == |s| && (forall j :: j in d.status || j in d.time || j in d.reason ==> 0 <= j < |s|) &&
            forall j :: 0 <= j < |s| ==>
              var k := s[j]; var kept := all || StatusOf(r, k) != ENABLED;
              d.keys[j] == r.keys[k] && StatusOf(d, j) == StatusOf(r, k) &&
              (j in d.status ==> d.status[j] != ENABLED) &&
              (j in d.time <==> kept && k in r.time) && (j in d.time ==> d.time[j] == r.time[k]) &&
              (j in d.reason <==> kept && k in r.reason) && (j in d.reason ==> d.reason[j] == r.reason[k])
  {}

  /** delete_key moves every record along with its key, that of an enabled key too, except a status of enabled. */
  lemma DeleteKeyRecords(c: Channel, i: int, now: int)
    requires 0 <= i < |c.ring.keys| && |c.ring.keys| > 1
    ensures var r, d := c.ring, DeleteKeyStep(c, i, now).ring;
            |d.keys| == |r.keys| - 1 &&
            (forall j :: j in d.status || j in d.time || j in d.reason ==> 0 <= j < |d.keys|) &&
            forall j :: 0 <= j < |d.keys| ==>
              var k := if j < i then j else j + 1;
              d.keys[j] == r.keys[k] && StatusOf(d, j) == StatusOf(r, k) &&
              (j in d.status ==> d.status[j] != ENABLED) &&
              (j in d.time <==> k in r.time) && (j in d.time ==> d.time[j] == r.time[k]) &&
              (j in d.reason <==> k in r.reason) && (j in d.reason ==> d.reason[j] == r.reason[k])
  {
    hide AllBut, HasEnabled, Renumber, StatusOf;
    KeptAllBut(|c.ring.keys|, i);
    RenumberRecords(c.ring, AllBut(|c.ring.keys|, i), true);
    assert DeleteKeyStep(c, i, now).ring == Renumber(c.ring, AllBut(|c.ring.keys|, i), true);
  }

  /** delete_disabled_keys keeps the records of the keys that stay and are not enabled, and no others. */
  lemma DeleteDisabledRecords(c: Channel, now: int)
    requires exists i :: 0 <= i < |c.ring.keys| && StatusOf(c.ring, i) == AUTO_DISABLED
    ensures var r, d, s := c.ring, DeleteDisabledStep(c, now).ring, Survivors(c.ring, |c.ring.keys|);
            |d.keys| == |s| &&
            (forall j :: j in d.status || j in d.time || j in d.reason ==>
               0 <= j < |s| && StatusOf(d, j) != ENABLED) &&
            forall j :: 0 <= j < |s| ==>
              var k := s[j];
              d.keys[j] == r.keys[k] && StatusOf(d, j) == StatusOf(r, k) &&
              (StatusOf(r, k) != ENABLED ==>
                 (j in d.time <==> k in r.time) && (j in d.time ==> d.time[j] == r.time[k]) &&
                 (j in d.reason <==> k in r.reason) && (j in d.reason ==> d.reason[j] == r.reason[k]))
  {
    hide Survivors, HasEnabled, Renumber;
    var s := Survivors(c.ring, |c.ring.keys|);
    RenumberRecords(c.ring, s, false);
    assert DeleteDisabledStep(c, now).ring == Renumber(c.ring, s, false);
  }

  /** Enabling forgets: no record of an enabled key is left, and none at all after enabling every key; the records
      of other keys stay. Disabling writes the status and leaves time and reason alone. */
  lemma SwitchRecords(c: Channel, i: int, now: int)
    requires 0 <= i < |c.ring.keys|
    ensures var r, e, d := c.ring, EnableKeyStep(c, i, now).ring, DisableKeyStep(c, i, now).ring;
            e.keys == r.keys == d.keys &&
            e.status == r.status - {i} && e.time == r.time - {i} && e.reason == r.reason - {i} &&
            d.status == r.status[i := MANUALLY_DISABLED] && d.time == r.time && d.reason == r.reason
    ensures var a := EnableAllStep(c, now).ring;
            a.keys == c.ring.keys && a.status == map[] && a.time == map[] && a.reason == map[]
  {
    hide HasEnabled;
  }

  /** Disabling every key writes a status for exactly the enabled ones and leaves time and reason alone. */
  lemma DisableAllRecords(c: Channel, now: int)
    ensures var r, d := c.ring, DisableAllStep(c, now).ring;
            d.keys == r.keys && d.time == r.time && d.reason == r.reason &&
            (forall k :: k in d.status <==> k in r.status || 0 <= k < |r.keys|) &&
            forall k :: k in d.status ==>
              d.status[k] == if 0 <= k < |r.keys| && StatusOf(r, k) == ENABLED then MANUALLY_DISABLED
                             else StatusOf(r, k)
  {
    if !HasEnabled(c.ring) {
      forall k | 0 <= k < |c.ring.keys| ensures k in c.ring.status { assert StatusOf(c.ring, k) != ENABLED; }
    }
  }

  /** Requests that name no key, or would delete the last one, and batches with nothing to do change nothing. */
  lemma NothingToDo(c: Channel, i: int, now: int)
    ensures !(0 <= i < |c.ring.keys|) ==>
              DisableKeyStep(c, i, now) == EnableKeyStep(c, i, now) == DeleteKeyStep(c, i, now) == c
    ensures |c.ring.keys| <= 1 ==> DeleteKeyStep(c, i, now) == c
    ensures !HasEnabled(c.ring) ==> DisableAllStep(c, now) == c
    ensures (forall k :: 0 <= k < |c.ring.keys| ==> StatusOf(c.ring, k) != AUTO_DISABLED) ==>
              DeleteDisabledStep(c, now) == c
  {}

  // ---- enabling and disabling ------------------------------------------------------------------

  /** A disabled key shows whatever time and reason are on record; an enabled one shows none. */
  lemma SwitchView(c: Channel, i: int, now: int)
    requires 0 <= i < |c.ring.keys|
    ensures var v, r := View(c.ring), c.ring;
            View(DisableKeyStep(c, i, now).ring) ==
            v[i := KeyView(r.keys[i], MANUALLY_DISABLED, if i in r.time then r.time[i] else 0,
                           if i in r.reason then r.reason[i] else "")] &&
            View(EnableKeyStep(c, i, now).ring) == v[i := KeyView(r.keys[i], ENABLED, 0, "")]
  {}

  /** The batch forms: every key enabled and clean, or each enabled key disabled with whatever is on record. */
  lemma SwitchAllView(c: Channel, now: int)
    ensures var v, e, d := View(c.ring), View(EnableAllStep(c, now).ring), View(DisableAllStep(c, now).ring);
            var r := c.ring;
            |e| == |v| == |d| &&
            forall k :: 0 <= k < |v| ==>
              e[k] == KeyView(v[k].key, ENABLED, 0, "") &&
              d[k] == if v[k].status != ENABLED then v[k]
                      else KeyView(v[k].key, MANUALLY_DISABLED, if k in r.time then r.time[k] else 0,
                                   if k in r.reason then r.reason[k] else "")
  {}

  // ---- the channel's own status ---------------------------------------------------------------

  datatype Action =
    | DisableKey(index: int)
    | EnableKey(index: int)
    | EnableAll
    | DisableAll
    | DeleteKey(index: int)
    | DeleteDisabled

  function Step(c: Channel, a: Action, now: int): Channel {
    match a
    case DisableKey(i) => DisableKeyStep(c, i, now)
    case EnableKey(i) => EnableKeyStep(c, i, now)
    case EnableAll => EnableAllStep(c, now)
    case DisableAll => DisableAllStep(c, now)
    case DeleteKey(i) => DeleteKeyStep(c, i, now)
    case DeleteDisabled => DeleteDisabledStep(c, now)
  }

  function Run(c: Channel, actions: seq<(Action, int)>): Channel
    decreases |actions|
  {
    if actions == [] then c else Run(Step(c, actions[0].0, actions[0].1), actions[1..])
  }

  /** Enabled means some key is enabled; disabled for want of keys means none is. */
  ghost predicate Truthful(c: Channel) {
    (c.status == ENABLED ==> HasEnabled(c.ring)) && (Exhausted(c) ==> !HasEnabled(c.ring))
  }

  predicate Exhausted(c: Channel) {
    c.status == MANUALLY_DISABLED && c.why == ALL_KEYS_DISABLED
  }

  /** Neither disabling nor deleting keys makes a key available. */
  lemma NoKeyAppears(c: Channel, a: Action, now: int)
    requires !a.EnableKey? && !a.EnableAll? && HasEnabled(Step(c, a, now).ring)
    ensures HasEnabled(c.ring)
  {
    hide Renumber, Kept;
    match a
    case DisableKey(i) =>
      var d := Step(c, a, now);
      var k :| 0 <= k < |d.ring.keys| && StatusOf(d.ring, k) == ENABLED;
      assert StatusOf(c.ring, k) == ENABLED;
    case DisableAll =>
    case DeleteKey(i) =>
      if 0 <= i < |c.ring.keys| && |c.ring.keys| > 1 {
        DeleteKeyView(c, i, now);
        EnabledByView(c.ring);
        EnabledByView(Step(c, a, now).ring);
      }
    case DeleteDisabled =>
      DeletingAutoKeepsEnabled(c, now);
  }

  lemma StepTruthful(c: Channel, a: Action, now: int)
    requires Truthful(c)
    ensures Truthful(Step(c, a, now))
  {
    hide Renumber, Kept, HasEnabled, DisabledAll;
    if a.EnableKey? || a.EnableAll? {
      EnablingKeepsKeys(c, a, now);
    } else if HasEnabled(Step(c, a, now).ring) {
      NoKeyAppears(c, a, now);
    }
  }

  lemma EnablingKeepsKeys(c: Channel, a: Action, now: int)
    requires a.EnableKey? || a.EnableAll?
    ensures HasEnabled(c.ring) ==> HasEnabled(Step(c, a, now).ring)
  {
    if k :| 0 <= k < |c.ring.keys| && StatusOf(c.ring, k) == ENABLED {
      var d := Step(c, a, now);
      assert StatusOf(d.ring, k) == ENABLED;
    }
  }

  /** Over any run, the status tells the truth about the keys. */
  lemma {:induction false} RunTruthful(c: Channel, actions: seq<(Action, int)>)
    requires Truthful(c)
    ensures Truthful(Run(c, actions))
    decreases |actions|
  {
    if actions != [] {
      StepTruthful(c, actions[0].0, actions[0].1);
      RunTruthful(Step(c, actions[0].0, actions[0].1), actions[1..]);
    }
  }

  /** Enabled with a usable key, or disabled for want of one. */
  ghost predicate Consistent(c: Channel) {
    if HasEnabled(c.ring) then c.status == ENABLED else Exhausted(c)
  }

  /** From a consistent channel, the status changes exactly when the first key becomes usable or the last one stops
      being so, and then with a new reason and time. */
  lemma StepConsistent(c: Channel, a: Action, now: int)
    requires Consistent(c)
    ensures var d := Step(c, a, now);
            Consistent(d) &&
            (d.status, d.why, d.since) ==
              if HasEnabled(d.ring) == HasEnabled(c.ring) then (c.status, c.why, c.since)
              else if HasEnabled(d.ring) then (ENABLED, "", now)
              else (MANUALLY_DISABLED, ALL_KEYS_DISABLED, now)
  {
    hide Renumber, Kept, HasEnabled, DisabledAll;
    if a.EnableKey? || a.EnableAll? {
      EnablingKeepsKeys(c, a, now);
    } else if HasEnabled(Step(c, a, now).ring) {
      NoKeyAppears(c, a, now);
    }
  }

  /** Over any run from such a channel, it is enabled exactly when some key is. */
  lemma {:induction false} RunConsistent(c: Channel, actions: seq<(Action, int)>)
    requires Consistent(c)
    ensures Consistent(Run(c, actions))
    ensures Run(c, actions).status == ENABLED <==> HasEnabled(Run(c, actions).ring)
    decreases |actions|
  {
    hide Step, HasEnabled;
    if actions != [] {
      StepConsistent(c, actions[0].0, actions[0].1);
      RunConsistent(Step(c, actions[0].0, actions[0].1), actions[1..]);
    }
  }

  /** Over any run, a channel disabled for another reason is never re-enabled or relabelled. */
  lemma {:induction false} RunLeavesOtherReasons(c: Channel, actions: seq<(Action, int)>)
    requires c.status != ENABLED && !Exhausted(c)
    ensures var d := Run(c, actions); d.status == c.status && d.why == c.why && d.since == c.since
    decreases |actions|
  {
    hide Renumber, Kept, HasEnabled, DisabledAll;
    if actions != [] {
      RunLeavesOtherReasons(Step(c, actions[0].0, actions[0].1), actions[1..]);
    }
  }

  /** A channel that is not enabled and says that all its keys are disabled is right. */
  ghost predicate LabelTrue(c: Channel) {
    c.status != ENABLED && c.why == ALL_KEYS_DISABLED ==> !HasEnabled(c.ring)
  }

  /** The actions leave a channel enabled or manually disabled if that is what it was. */
  lemma {:induction false} RunStaysManual(c: Channel, actions: seq<(Action, int)>)
    requires c.status == ENABLED || c.status == MANUALLY_DISABLED
    ensures var d := Run(c, actions); d.status == ENABLED || d.status == MANUALLY_DISABLED
    decreases |actions|
  {
    hide Renumber, Kept, HasEnabled, DisabledAll;
    if actions != [] { RunStaysManual(Step(c, actions[0].0, actions[0].1), actions[1..]); }
  }

  lemma {:induction false} RunAddsNoKeys(c: Channel, actions: seq<(Action, int)>)
    requires c.ring.keys == []
    ensures Run(c, actions).ring.keys == []
    decreases |actions|
  {
    hide HasEnabled;
    if actions != [] { RunAddsNoKeys(Step(c, actions[0].0, actions[0].1), actions[1..]); }
  }

  lemma RunOne(c: Channel, a: Action, now: int)
    ensures Run(c, [(a, now)]) == Step(c, a, now)
  {
    hide Step;
    assert [(a, now)][1..] == [];
  }

  /** Enabling the first key of a channel disabled in another way leaves the label behind. */
  lemma EnablingStalesLabel(c: Channel, now: int)
    requires c.status != ENABLED && c.why == ALL_KEYS_DISABLED && c.status != MANUALLY_DISABLED && c.ring.keys != []
    ensures !LabelTrue(Run(c, [(EnableKey(0), now)])) && !LabelTrue(Run(c, [(EnableAll, now)]))
  {
    var d, e := EnableKeyStep(c, 0, now), EnableAllStep(c, now);
    assert StatusOf(d.ring, 0) == ENABLED && HasEnabled(d.ring);
    assert StatusOf(e.ring, 0) == ENABLED && HasEnabled(e.ring);
    RunOne(c, EnableKey(0), now);
    RunOne(c, EnableAll, now);
  }

  /** The all-keys label of a channel without enabled keys stays true over every run exactly when the channel was
      disabled manually or has no keys at all: an auto-disabled one is not restored and keeps a stale label. */
  lemma LabelStaysTrueIff(c: Channel)
    requires c.status != ENABLED && c.why == ALL_KEYS_DISABLED && !HasEnabled(c.ring)
    ensures (forall actions :: LabelTrue(Run(c, actions))) <==> c.status == MANUALLY_DISABLED || c.ring.keys == []
  {
    if c.status == MANUALLY_DISABLED || c.ring.keys == [] {
      forall actions ensures LabelTrue(Run(c, actions)) {
        if c.ring.keys == [] {
          RunAddsNoKeys(c, actions);
        } else {
          RunTruthful(c, actions);
          RunStaysManual(c, actions);
        }
      }
    } else {
      EnablingStalesLabel(c, 0);
    }
  }
}
