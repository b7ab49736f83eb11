/**
 The channel object that checks, applies and edits in place; saving to the database always succeeds.
 */
module UpstreamChannel {
  import opened Text
  import opened ModelNames
  import opened UpstreamUpdate

  class Channel {
    var models: string
    var ignored: seq<string>
    var detected: seq<string>
    var removed: seq<string>
    var lastCheck: int
    var autoSyncEnabled: bool

    ghost function View(): State
      reads this
    {
      State(models, ignored, detected, removed, lastCheck)
    }

    constructor (models: string, autoSyncEnabled: bool)
      ensures View() == State(models, [], [], [], 0) && this.autoSyncEnabled == autoSyncEnabled
    {
      this.models, this.autoSyncEnabled := models, autoSyncEnabled;
      ignored, detected, removed, lastCheck := [], [], [], 0;
    }

    /** checkAndPersistChannelUpstreamModelUpdates. */
    method CheckAndPersist(now: int, force: bool, minInterval: int, allowAutoApply: bool, fetch: Fetch,
                           mapping: map<string, string>, matches: Matcher)
      returns (modelsChanged: bool, autoAdded: int, ok: bool)
      modifies this
      ensures var c := Check(now, force, minInterval, allowAutoApply && autoSyncEnabled, fetch, mapping, matches);
              (View(), autoAdded) == CheckStep(old(View()), c)
      ensures autoSyncEnabled == old(autoSyncEnabled) && (modelsChanged <==> autoAdded > 0)
      ensures !ok <==> fetch.Failed? && (force || old(lastCheck) <= 0 || now - old(lastCheck) >= minInterval)
    {
      hide Normalize, PendingAdds, PendingRemoves, Join, GetModels;
      modelsChanged, autoAdded, ok := false, 0, true;
      if !force && lastCheck > 0 && now - lastCheck < minInterval {
        return;
      }
      lastCheck := now;
      if fetch.Failed? {
        ok := false;
        return;
      }
      var adds := PendingAdds(GetModels(models), fetch.names, ignored, mapping, matches);
      var removes := PendingRemoves(GetModels(models), fetch.names, mapping);
      if allowAutoApply && autoSyncEnabled && |adds| > 0 {
        var origin := Normalize(GetModels(models));
        var merged := MergeModelNames(origin, adds);
        if |merged| > |origin| {
          models := Join(merged, ',');
          autoAdded := |merged| - |origin|;
          modelsChanged := true;
        }
        detected := [];
      } else {
        detected := adds;
      }
      removed := removes;
    }

    /** applyChannelUpstreamModelUpdates. */
    method Apply(addInput: seq<string>, ignoreInput: seq<string>, removeInput: seq<string>, now: int)
      returns (added: seq<string>, removedModels: seq<string>, remaining: seq<string>, remainingRemove: seq<string>,
               modelsChanged: bool)
      modifies this
      ensures var sel := Selection(addInput, ignoreInput, removeInput);
              View() == ApplyStep(old(View()), sel, now) &&
              added == Effective(old(View()), sel).add && removedModels == Effective(old(View()), sel).remove
      ensures remaining == detected && remainingRemove == removed && autoSyncEnabled == old(autoSyncEnabled)
      ensures modelsChanged <==> Local(old(View())) != ApplySelected(Local(old(View())), added, removedModels)
    {
      hide Normalize, Join, GetModels, ApplySelected, Subtract, Intersect;
      var pendingAdd, pendingRemove := Normalize(detected), Normalize(removed);
      added := Intersect(addInput, pendingAdd);
      var ignore := Intersect(ignoreInput, pendingAdd);
      removedModels := Intersect(removeInput, pendingRemove);
      removedModels := Subtract(removedModels, added);

      var origin := Normalize(GetModels(models));
      var next := ApplySelected(origin, added, removedModels);
      modelsChanged := origin != next;
      if modelsChanged {
        models := Join(next, ',');
      }
      ignored := MergeModelNames(ignored, ignore);
      if |added| > 0 {
        ignored := Subtract(ignored, added);
      }
      remaining := Subtract(pendingAdd, added + ignore);
      remainingRemove := Subtract(pendingRemove, removedModels);
      detected := remaining;
      removed := remainingRemove;
      lastCheck := now;
    }

    /** A manual models edit, with the settings the request carried or the stored ones. */
    method Edit(newModels: string, settings: Settings)
      modifies this
      ensures View() == EditStep(old(View()), newModels, settings) && autoSyncEnabled == old(autoSyncEnabled)
    {
      hide Normalize, GetModels, Subtract;
      if settings.Replace? {
        ignored, detected, removed, lastCheck :=
          settings.ignored, settings.detected, settings.removed, settings.lastCheck;
      }
      var origin, next := Normalize(GetModels(models)), Normalize(GetModels(newModels));
      var merged := MergeModelNames(ignored, origin);
      ignored := Subtract(merged, next);
      detected := Subtract(detected, next + ignored);
      models := newModels;
    }
  }
}
