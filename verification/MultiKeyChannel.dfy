/**
 The multi-key channel object whose fields ManageMultiKeys rewrites, action by action.
 */
module MultiKeyChannel {
  import opened MultiKey

  /** The key index of a request, which may be missing. */
  datatype Index = Missing | At(index: int)

  lemma PickNext<V>(m: map<int, V>, s: seq<int>, i: int)
    ensures Pick(m, s + [i]) == if i in m then Pick(m, s)[|s| := m[i]] else Pick(m, s)
  {}

  /** One more key in a renumbering. */
  lemma RenumberNext(r: Keyring, s: seq<int>, i: nat, all: bool)
    requires Indices(r, s) && i < |r.keys|
    ensures var a, n := Renumber(r, s, all), |s|; var record := all || StatusOf(r, i) != ENABLED;
            Renumber(r, s + [i], all) ==
            Keyring(a.keys + [r.keys[i]],
                    if StatusOf(r, i) != ENABLED then a.status[n := StatusOf(r, i)] else a.status,
                    if i in r.time && record then a.time[n := r.time[i]] else a.time,
                    if i in r.reason && record then a.reason[n := r.reason[i]] else a.reason)
  {
    hide Pick;
    PickNext(OfDisabled(r, r.status), s, i);
    PickNext(if all then r.time else OfDisabled(r, r.time), s, i);
    PickNext(if all then r.reason else OfDisabled(r, r.reason), s, i);
    assert Renumber(r, s + [i], all).keys == Renumber(r, s, all).keys + [r.keys[i]];
  }

  lemma AllButNext(n: nat, i: int)
    ensures AllBut(0, i) == [] && AllBut(n + 1, i) == if n != i then AllBut(n, i) + [n] else AllBut(n, i)
  {}

  lemma SurvivorsNext(r: Keyring, n: nat)
    ensures Survivors(r, 0) == []
    ensures Survivors(r, n + 1) == if StatusOf(r, n) != AUTO_DISABLED then Survivors(r, n) + [n] else Survivors(r, n)
  {}

  lemma DisabledNext(r: Keyring, n: nat)
    ensures DisabledBelow(r, n + 1) ==
            if StatusOf(r, n) == ENABLED then DisabledBelow(r, n)[n := MANUALLY_DISABLED] else DisabledBelow(r, n)
    ensures (if n in DisabledBelow(r, n) then DisabledBelow(r, n)[n] else ENABLED) == StatusOf(r, n)
    ensures DisabledBelow(r, 0) == r.status
    ensures (forall k :: 0 <= k < n ==> StatusOf(r, k) != ENABLED) ==> DisabledBelow(r, n) == r.status
  {}

  lemma EnabledNext(r: Keyring, n: nat)
    ensures EnabledBelow(r, 0) == []
    ensures EnabledBelow(r, n + 1) == if StatusOf(r, n) == ENABLED then EnabledBelow(r, n) + [n] else EnabledBelow(r, n)
  {}

  class Channel {
    var keys: seq<string>
    var size: int
    var statusList: map<int, int>
    var disabledTime: map<int, int>
    var disabledReason: map<int, string>
    var status: int
    var why: string
    var since: int

    ghost predicate Valid()
      reads this
    {
      size == |keys|
    }

    function Ring(): Keyring
      reads this
    {
      Keyring(keys, statusList, disabledTime, disabledReason)
    }

    ghost function View(): MultiKey.Channel
      reads this
    {
      MultiKey.Channel(Ring(), status, why, since)
    }

    constructor (keys: seq<string>)
      ensures Valid() && View() == MultiKey.Channel(Keyring(keys, map[], map[], map[]), ENABLED, "", 0)
    {
      this.keys, size := keys, |keys|;
      statusList, disabledTime, disabledReason := map[], map[], map[];
      status, why, since := ENABLED, "", 0;
    }

    /** hasEnabledMultiKey: the first enabled key ends the scan. */
    method HasEnabledMultiKey() returns (found: bool)
      ensures found <==> HasEnabled(Ring())
    {
      var i := 0;
      while i < |keys|
        invariant 0 <= i <= |keys|
        invariant forall k :: 0 <= k < i ==> StatusOf(Ring(), k) != ENABLED
      {
        if i !in statusList || statusList[i] == ENABLED {
          assert StatusOf(Ring(), i) == ENABLED;
          return true;
        }
        i := i + 1;
      }
      return false;
    }

    /** Says whether open connections must close, that is, whether no key is usable. */
    method DisableUnavailable(now: int) returns (unavailable: bool)
      modifies this`status, this`why, this`since
      ensures View() == DisableIfUnavailable(old(View()), now)
      ensures unavailable <==> !HasEnabled(Ring())
    {
      var enabled := HasEnabledMultiKey();
      unavailable := !enabled;
      if unavailable && status == ENABLED {
        status := MANUALLY_DISABLED;
        why := ALL_KEYS_DISABLED;
        since := now;
      }
    }

    method RestoreAvailable(now: int)
      modifies this`status, this`why, this`since
      ensures View() == RestoreIfAvailable(old(View()), now)
    {
      var enabled := HasEnabledMultiKey();
      if status != MANUALLY_DISABLED || !enabled || why != ALL_KEYS_DISABLED {
        return;
      }
      status := ENABLED;
      why := "";
      since := now;
    }

    method DisableKey(request: Index, now: int) returns (ok: bool)
      requires Valid()
      modifies this
      ensures Valid() && (ok <==> request.At? && 0 <= request.index < size)
      ensures View() == if ok then DisableKeyStep(old(View()), request.index, now) else old(View())
    {
      if request.Missing? || request.index < 0 || request.index >= size {
        return false;
      }
      statusList := statusList[request.index := MANUALLY_DISABLED];
      var _ := DisableUnavailable(now);
      return true;
    }

    method EnableKey(request: Index, now: int) returns (ok: bool)
      requires Valid()
      modifies this
      ensures Valid() && (ok <==> request.At? && 0 <= request.index < size)
      ensures View() == if ok then EnableKeyStep(old(View()), request.index, now) else old(View())
    {
      if request.Missing? || request.index < 0 || request.index >= size {
        return false;
      }
      statusList := statusList - {request.index};
      disabledTime := disabledTime - {request.index};
      disabledReason := disabledReason - {request.index};
      RestoreAvailable(now);
      return true;
    }

    method EnableAllKeys(now: int) returns (enabledCount: int)
      requires Valid()
      modifies this
      ensures Valid() && View() == EnableAllStep(old(View()), now) && enabledCount == |old(statusList)|
    {
      enabledCount := |statusList|;
      statusList, disabledTime, disabledReason := map[], map[], map[];
      RestoreAvailable(now);
    }

    method DisableAllKeys(now: int) returns (disabledCount: int)
      requires Valid()
      modifies this
      ensures Valid() && View() == DisableAllStep(old(View()), now)
      ensures disabledCount == |EnabledBelow(old(Ring()), |old(keys)|)|
      ensures disabledCount > 0 <==> HasEnabled(old(Ring()))
    {
      hide DisabledBelow, EnabledBelow, HasEnabled;
      ghost var r := Ring();
      disabledCount := 0;
      var i := 0;
      DisabledNext(r, 0);
      EnabledNext(r, 0);
      while i < size
        invariant 0 <= i <= size == |keys| && keys == r.keys && disabledTime == r.time && disabledReason == r.reason
        invariant (status, why, since) == old((status, why, since))
        invariant statusList == DisabledBelow(r, i)
        invariant disabledCount == |EnabledBelow(r, i)|
        invariant disabledCount > 0 <==> exists k :: 0 <= k < i && StatusOf(r, k) == ENABLED
      {
        DisabledNext(r, i);
        EnabledNext(r, i);
        var current := if i in statusList then statusList[i] else ENABLED;
        if current == ENABLED {
          statusList := statusList[i := MANUALLY_DISABLED];
          disabledCount := disabledCount + 1;
        }
        i := i + 1;
      }
      EnabledIff(r);
      if disabledCount == 0 {
        DisabledNext(r, i);
        return;
      }
      var _ := DisableUnavailable(now);
    }

    /** Rebuilds the three maps around the deleted index; the last key cannot be deleted. */
    method DeleteKey(request: Index, now: int) returns (ok: bool)
      requires Valid()
      modifies this
      ensures Valid() && (ok <==> request.At? && 0 <= request.index < old(size) && old(size) > 1)
      ensures View() == if request.At? then DeleteKeyStep(old(View()), request.index, now) else old(View())
    {
      hide HasEnabled, Renumber, AllBut;
      if request.Missing? || request.index < 0 || request.index >= size {
        return false;
      }
      ghost var r := Ring();
      var remaining: seq<string>, newStatus: map<int, int>, newTime: map<int, int>, newReason: map<int, string> :=
        [], map[], map[], map[];
      var newIndex, i := 0, 0;
      AllButNext(0, request.index);
      RenumberNone(r, true);
      while i < |keys|
        modifies {}
        invariant 0 <= i <= |keys| && newIndex == |AllBut(i, request.index)|
        invariant Keyring(remaining, newStatus, newTime, newReason) == Renumber(r, AllBut(i, request.index), true)
      {
        AllButNext(i, request.index);
        RenumberNext(r, AllBut(i, request.index), i, true);
        if i != request.index {
          remaining := remaining + [keys[i]];
          if i in statusList && statusList[i] != ENABLED {
            newStatus := newStatus[newIndex := statusList[i]];
          }
          if i in disabledTime {
            newTime := newTime[newIndex := disabledTime[i]];
          }
          if i in disabledReason {
            newReason := newReason[newIndex := disabledReason[i]];
          }
          newIndex := newIndex + 1;
        }
        i := i + 1;
      }
      KeptAllBut(|keys|, request.index);
      RenumberSize(r, AllBut(|keys|, request.index), true);
      if |remaining| == 0 {
        return false;
      }
      keys, size := remaining, |remaining|;
      statusList, disabledTime, disabledReason := newStatus, newTime, newReason;
      var _ := DisableUnavailable(now);
      return true;
    }

    /** Deletes every auto-disabled key in one pass. */
    method DeleteDisabledKeys(now: int) returns (deletedCount: int)
      requires Valid()
      modifies this
      ensures Valid() && View() == DeleteDisabledStep(old(View()), now)
      ensures deletedCount == old(size) - size
    {
      hide HasEnabled, Renumber, Survivors;
      ghost var r := Ring();
      var remaining: seq<string>, newStatus: map<int, int>, newTime: map<int, int>, newReason: map<int, string> :=
        [], map[], map[], map[];
      deletedCount := 0;
      var newIndex, i := 0, 0;
      SurvivorsNext(r, 0);
      RenumberNone(r, false);
      while i < |keys|
        modifies {}
        invariant 0 <= i <= |keys| && newIndex == |Survivors(r, i)| && deletedCount == i - newIndex >= 0
        invariant deletedCount > 0 <==> exists k :: 0 <= k < i && StatusOf(r, k) == AUTO_DISABLED
        invariant Keyring(remaining, newStatus, newTime, newReason) == Renumber(r, Survivors(r, i), false)
      {
        SurvivorsNext(r, i);
        RenumberNext(r, Survivors(r, i), i, false);
        var current := if i in statusList then statusList[i] else ENABLED;
        assert current == StatusOf(r, i);
        if current == AUTO_DISABLED {
          deletedCount := deletedCount + 1;
        } else {
          remaining := remaining + [keys[i]];
          if current != ENABLED {
            newStatus := newStatus[newIndex := current];
            if i in disabledTime {
              newTime := newTime[newIndex := disabledTime[i]];
            }
            if i in disabledReason {
              newReason := newReason[newIndex := disabledReason[i]];
            }
          }
          newIndex := newIndex + 1;
        }
        i := i + 1;
      }
      if deletedCount == 0 {
        return;
      }
      RenumberSize(r, Survivors(r, |keys|), false);
      keys, size := remaining, |remaining|;
      statusList, disabledTime, disabledReason := newStatus, newTime, newReason;
      var _ := DisableUnavailable(now);
    }
  }

  lemma EnabledIff(r: Keyring)
    ensures HasEnabled(r) <==> exists k :: 0 <= k < |r.keys| && StatusOf(r, k) == ENABLED
  {}

  lemma RenumberNone(r: Keyring, all: bool)
    ensures Renumber(r, [], all) == Keyring([], map[], map[], map[])
  {}

  lemma RenumberSize(r: Keyring, s: seq<int>, all: bool)
    requires Indices(r, s)
    ensures |Renumber(r, s, all).keys| == |s|
  {}
}
