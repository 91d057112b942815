/**
 * The hidden-groups store of the client: a map from group id to a "hidden"
 * flag, loaded once from a single local-storage entry when the hook mounts and
 * written back in full after every change.
 *
 * The pure part (what each mutation does to the map, what the queries read
 * from it) is stated as functions on `VisibilityState`; the hook itself is the
 * class `VisibilityStore`, whose methods replace the map and the stored copy
 * as the hook's callbacks do.
 */
module GroupVisibility {

  /** The hook's state: group id -> hidden flag. An absent id is visible. */
  type VisibilityState = map<string, bool>

  /** The one storage key under which the whole map is persisted. */
  const StorageKey: string := "money-balancer-hidden-groups"

  /** What the entry under `StorageKey` holds, as far as the hook can tell
      after reading and parsing it. */
  datatype StoredEntry =
    | Missing                        // no item, or an empty string
    | Unparseable                    // reading or parsing the item threw
    | Entry(state: VisibilityState)  // a map written by a previous save

  /** A group is hidden when its flag is present and `true`; an absent id and
      an id mapped to `false` are both visible. */
  predicate IsHidden(m: VisibilityState, g: string)
    ensures IsHidden(m, g) ==> g in m
    ensures g in m && !m[g] ==> !IsHidden(m, g)
    ensures IsHidden(m, g) <==> g in HiddenIds(m)
  {
    g in m && m[g]
  }

  /** Reference definition of the enumeration: the ids flagged `true`. */
  function HiddenIds(m: VisibilityState): set<string>
  {
    set g | g in m && m[g]
  }

  /** The store's own invariant: only `true` flags are ever written. A map
      loaded from storage need not satisfy it; the hook tolerates stray
      `false` entries. */
  predicate OnlyTrue(m: VisibilityState)
  {
    forall g :: g in m ==> m[g]
  }

  /** The map `hideGroup` builds: `g` flagged hidden, every other entry kept. */
  function Hide(m: VisibilityState, g: string): (r: VisibilityState)
    ensures IsHidden(r, g)
    ensures r.Keys == m.Keys + {g}
    ensures forall k :: k in m && k != g ==> r[k] == m[k]
  {
    m[g := true]
  }

  /** The map `showGroup` builds: the entry for `g` deleted (not set to
      `false`), every other entry kept. */
  function Show(m: VisibilityState, g: string): (r: VisibilityState)
    ensures g !in r && !IsHidden(r, g)
    ensures r.Keys == m.Keys - {g}
    ensures forall k :: k in r ==> r[k] == m[k]
  {
    m - {g}
  }

  /** The map `toggleGroupVisibility` builds: `Show` when `g` is hidden,
      otherwise `Hide`. The hidden status of `g` flips; other ids keep their
      entries. */
  function Toggle(m: VisibilityState, g: string): (r: VisibilityState)
    ensures IsHidden(r, g) == !IsHidden(m, g)
    ensures forall k :: k != g ==> (k in r <==> k in m)
    ensures forall k :: k in r && k != g ==> r[k] == m[k]
  {
    if IsHidden(m, g) then Show(m, g) else Hide(m, g)
  }

  /** `hideGroup` twice gives the map `hideGroup` once gives. */
  lemma HideIdempotent(m: VisibilityState, g: string)
    ensures Hide(Hide(m, g), g) == Hide(m, g)
  {
  }

  /** `showGroup` twice gives the map `showGroup` once gives, and on an id
      that has no entry it changes nothing. */
  lemma ShowIdempotent(m: VisibilityState, g: string)
    ensures Show(Show(m, g), g) == Show(m, g)
    ensures g !in m ==> Show(m, g) == m
  {
  }

  /** Hiding then showing an id leaves it visible whatever it was before. */
  lemma HideThenShow(m: VisibilityState, g: string)
    ensures !IsHidden(Show(Hide(m, g), g), g)
    ensures Show(Hide(m, g), g) == Show(m, g)
  {
  }

  /** Toggling twice restores the hidden status of the toggled id and keeps
      every other entry. */
  lemma ToggleTwiceRestoresStatus(m: VisibilityState, g: string)
    ensures IsHidden(Toggle(Toggle(m, g), g), g) == IsHidden(m, g)
    ensures forall k :: k != g ==> (k in Toggle(Toggle(m, g), g) <==> k in m)
    ensures forall k :: k != g && k in m ==> Toggle(Toggle(m, g), g)[k] == m[k]
  {
  }

  /** Under the store's invariant, toggling twice restores the whole map. */
  lemma ToggleTwiceRestoresMap(m: VisibilityState, g: string)
    requires OnlyTrue(m)
    ensures Toggle(Toggle(m, g), g) == m
  {
  }

  /** Without the invariant the map is not restored: a stray `false` entry is
      replaced by no entry at all, though the id stays visible. */
  lemma StrayFalseIsDropped()
    ensures Toggle(Toggle(map["a" := false], "a"), "a") == map[]
  {
  }

  /** Every mutation keeps the store's invariant. */
  lemma MutationsKeepOnlyTrue(m: VisibilityState, g: string)
    requires OnlyTrue(m)
    ensures OnlyTrue(Hide(m, g)) && OnlyTrue(Show(m, g)) && OnlyTrue(Toggle(m, g))
    ensures OnlyTrue(map[])
  {
  }

  /** Under the invariant the hidden ids are exactly the keys. */
  lemma OnlyTrueHiddenIdsAreKeys(m: VisibilityState)
    requires OnlyTrue(m)
    ensures HiddenIds(m) == m.Keys
  {
  }

  /** The hidden ids after each mutation, in terms of those before. */
  lemma HiddenIdsAfterMutation(m: VisibilityState, g: string)
    ensures HiddenIds(Hide(m, g)) == HiddenIds(m) + {g}
    ensures HiddenIds(Show(m, g)) == HiddenIds(m) - {g}
    ensures HiddenIds(Toggle(m, g)) == if g in HiddenIds(m) then HiddenIds(m) - {g} else HiddenIds(m) + {g}
  {
  }

  /** A run of toggles, applied in call order to the current map each time. */
  function ApplyToggles(m: VisibilityState, ids: seq<string>): VisibilityState
    decreases |ids|
  {
    if ids == [] then m else ApplyToggles(Toggle(m, ids[0]), ids[1..])
  }

  /** How many times `g` occurs in `ids`. */
  function Occurrences(ids: seq<string>, g: string): nat
    decreases |ids|
  {
    if ids == [] then 0 else (if ids[0] == g then 1 else 0) + Occurrences(ids[1..], g)
  }

  /** After a run of toggles an id is hidden exactly when it was hidden before
      and was toggled an even number of times, or was visible and was toggled
      an odd number of times; an id never toggled keeps its entry. */
  lemma {:induction false} ToggleRunParity(m: VisibilityState, ids: seq<string>, g: string)
    ensures IsHidden(ApplyToggles(m, ids), g) == (IsHidden(m, g) != (Occurrences(ids, g) % 2 == 1))
    ensures Occurrences(ids, g) == 0 ==> (g in ApplyToggles(m, ids) <==> g in m)
    ensures Occurrences(ids, g) == 0 && g in m ==> ApplyToggles(m, ids)[g] == m[g]
    decreases |ids|
  {
    if ids != [] {
      ToggleRunParity(Toggle(m, ids[0]), ids[1..], g);
    }
  }

  /**
   * The hook instance. `hiddenGroups` is its state cell; `storage` is what
   * the entry under `StorageKey` holds. Every mutator takes `writeOk`, whether writing
   * the storage entry succeeded (a failed write is caught and only logged).
   */
  class VisibilityStore {
    var hiddenGroups: VisibilityState
    var storage: StoredEntry

    /** The persisted copy is the in-memory map. */
    predicate InSync()
      reads this
    {
      storage == Entry(hiddenGroups)
    }

    /** First render: the state starts empty, whatever storage holds. */
    constructor (stored: StoredEntry)
      ensures hiddenGroups == map[] && storage == stored
    {
      hiddenGroups := map[];
      storage := stored;
    }

    /** The mount effect: a parsed map becomes the state; a missing item or a
        failed read or parse leaves the empty state. Storage is not written. */
    method LoadOnMount()
      modifies this`hiddenGroups
      ensures storage.Entry? ==> hiddenGroups == storage.state && InSync()
      ensures !storage.Entry? ==> hiddenGroups == old(hiddenGroups)
    {
      match storage
      case Entry(state) =>
        hiddenGroups := state;
      case _ =>
    }

    /** `saveToStorage`: writes the whole given map, or, when the write
        fails, leaves the stored entry as it was. */
    method SaveToStorage(newState: VisibilityState, writeOk: bool)
      modifies this`storage
      ensures storage == if writeOk then Entry(newState) else old(storage)
    {
      if writeOk {
        storage := Entry(newState);
      }
    }

    /** `isGroupHidden`: hidden exactly when the id is among the ids the
        enumeration reports. */
    function IsGroupHidden(g: string): (r: bool)
      reads this
      ensures r <==> g in HiddenIds(hiddenGroups)
      ensures r ==> g in hiddenGroups
    {
      IsHidden(hiddenGroups, g)
    }

    method HideGroup(g: string, writeOk: bool)
      modifies this
      ensures hiddenGroups == Hide(old(hiddenGroups), g)
      ensures storage == if writeOk then Entry(hiddenGroups) else old(storage)
    {
      var newState := hiddenGroups[g := true];
      hiddenGroups := newState;
      SaveToStorage(newState, writeOk);
    }

    method ShowGroup(g: string, writeOk: bool)
      modifies this
      ensures hiddenGroups == Show(old(hiddenGroups), g)
      ensures storage == if writeOk then Entry(hiddenGroups) else old(storage)
    {
      var newState := hiddenGroups - {g};
      hiddenGroups := newState;
      SaveToStorage(newState, writeOk);
    }

    method ToggleGroupVisibility(g: string, writeOk: bool)
      modifies this
      ensures hiddenGroups == Toggle(old(hiddenGroups), g)
      ensures IsGroupHidden(g) == !old(IsGroupHidden(g))
      ensures storage == if writeOk then Entry(hiddenGroups) else old(storage)
    {
      if IsGroupHidden(g) {
        ShowGroup(g, writeOk);
      } else {
        HideGroup(g, writeOk);
      }
    }

    /** `getHiddenGroupIds`: each id flagged `true` exactly once, and no other
        id. Reads the state and changes nothing. */
    method GetHiddenGroupIds() returns (ids: seq<string>)
      ensures forall g :: g in ids <==> g in HiddenIds(hiddenGroups)
      ensures forall i, j :: 0 <= i < j < |ids| ==> ids[i] != ids[j]
    {
      ids := [];
      var keys := hiddenGroups.Keys;
      while keys != {}
        invariant keys <= hiddenGroups.Keys
        invariant forall g :: g in ids <==> g in HiddenIds(hiddenGroups) && g !in keys
        invariant forall i, j :: 0 <= i < j < |ids| ==> ids[i] != ids[j]
        decreases keys
      {
        var g :| g in keys;
        if hiddenGroups[g] {
          ids := ids + [g];
        }
        keys := keys - {g};
      }
    }

    method ShowAllGroups(writeOk: bool)
      modifies this
      ensures hiddenGroups == map[]
      ensures HiddenIds(hiddenGroups) == {}
      ensures forall g :: !IsGroupHidden(g)
      ensures storage == if writeOk then Entry(map[]) else old(storage)
    {
      hiddenGroups := map[];
      SaveToStorage(map[], writeOk);
    }
  }

  /** A page reload: a fresh hook instance mounts from what the previous one
      left in storage. It starts from the stored map, or empty when there is
      none; so when the previous instance was in sync, with the same map. */
  method Reload(s: VisibilityStore) returns (t: VisibilityStore)
    ensures t.storage == s.storage
    ensures s.storage.Entry? ==> t.hiddenGroups == s.storage.state
    ensures s.InSync() ==> t.hiddenGroups == s.hiddenGroups
    ensures !s.storage.Entry? ==> t.hiddenGroups == map[]
  {
    t := new VisibilityStore(s.storage);
    t.LoadOnMount();
  }
}
