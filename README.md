# Hidden groups and the group row, modelled in Dafny

This project models the client-side logic of the money-balancer web app's group list.

- **The hidden-groups store** (`useGroupVisibility`). It keeps a map from group id to a "hidden" flag. Queries read the map. Mutators replace it and write the whole new map to one local-storage entry (`money-balancer-hidden-groups`). On mount, the map is loaded from that entry, with the empty map as the fallback.
- **The group row** (`GroupListItem`). It derives the "New"/"Active" chip, the "Created"/"Updated" caption with its relative activity text, and the visibility button's label. It guards navigation on a click, and its toggle handler starts a collapse, then reports the toggle from a deferred callback.

Files:

- `wrappers.dfy`: the `Option` datatype.
- `group_visibility.dfy`, module `GroupVisibility`:
  - the mutations as functions on `map<string, bool>` (`Hide`, `Show`, `Toggle`), with their laws;
  - the hook as the class `VisibilityStore`. Its field `hiddenGroups` is the state cell and its field `storage` is the stored entry.
- `group_list_item.dfy`, module `GroupListItem`:
  - the `Group` record and the row's pure derivations;
  - the class `GroupRow`, holding the `isAnimating` flag, the scheduled callbacks and the toggle requests reported so far.

Environment inputs are parameters:

- Each mutator takes `writeOk`, which says whether the storage write succeeded. A failed write is caught, and the in-memory map is updated anyway.
- The stored entry is `Missing`, `Unparseable` (reading or parsing threw) or `Entry(map)`.
- The relative-time formatter, together with the clock it reads, is a function `int -> Option<string>`. `None` stands for "it threw".

Two behaviours of the code are easy to misread, and the model follows the code:

- The activity time is `updated_at || created_at`. That is `updated_at` unless it is absent or 0, not the later of the two. `ActivityIsLatestWhenConsistent` shows the two agree for consistent timestamps. `ActivityIsNotLatestInGeneral` shows they differ otherwise.
- `isNewGroup` is a strict `===`, so a group with no `updated_at` is not new: it shows "Active" and "Updated" (`AbsentUpdateIsNotNew`).

## Model

| member | source | states |
|---|---|---|
| `GroupVisibility.IsHidden` | client/src/hooks/useGroupVisibility.tsx:48 | an id is hidden only when it is a key; an id mapped to `false` is not hidden; hidden exactly when it is among the ids flagged `true` |
| `GroupVisibility.Hide` | client/src/hooks/useGroupVisibility.tsx:53-60 | after hiding, the id is hidden, the keys are the old keys plus the id, and every other entry keeps its value |
| `GroupVisibility.Show` | client/src/hooks/useGroupVisibility.tsx:62-70 | after showing, the id is no longer a key at all (not set to false), the keys are the old keys minus the id, and every other entry keeps its value |
| `GroupVisibility.Toggle` | client/src/hooks/useGroupVisibility.tsx:72-81 | toggling flips the id's hidden status; every other id keeps its presence and its value |
| `GroupVisibility.HideIdempotent` | client/src/hooks/useGroupVisibility.tsx:53-60 | hiding twice gives the same map as hiding once |
| `GroupVisibility.ShowIdempotent` | client/src/hooks/useGroupVisibility.tsx:62-70 | showing twice gives the same map as showing once; showing an id with no entry leaves the map equal to before |
| `GroupVisibility.HideThenShow` | client/src/hooks/useGroupVisibility.tsx:53-70 | hide followed by show leaves the id visible, with the same map as showing alone |
| `GroupVisibility.ToggleTwiceRestoresStatus` | client/src/hooks/useGroupVisibility.tsx:72-81 | toggling twice restores the id's hidden status and leaves every other entry as it was |
| `GroupVisibility.ToggleTwiceRestoresMap` | client/src/hooks/useGroupVisibility.tsx:72-81 | when the map holds only `true` flags, toggling twice restores the whole map |
| `GroupVisibility.StrayFalseIsDropped` | client/src/hooks/useGroupVisibility.tsx:72-81 | a loaded entry `id -> false` is not restored by toggling twice: it becomes no entry (the id stays visible) |
| `GroupVisibility.MutationsKeepOnlyTrue` | client/src/hooks/useGroupVisibility.tsx:53-90 | hide, show, toggle and show-all never write a `false` flag into a map that had none |
| `GroupVisibility.OnlyTrueHiddenIdsAreKeys` | client/src/hooks/useGroupVisibility.tsx:83-85 | when the map holds only `true` flags, the hidden ids are exactly its keys |
| `GroupVisibility.HiddenIdsAfterMutation` | client/src/hooks/useGroupVisibility.tsx:53-85 | the hidden ids grow by the id on hide, lose it on show, and gain or lose it on toggle according to the prior status |
| `GroupVisibility.ToggleRunParity` | client/src/hooks/useGroupVisibility.tsx:72-81 | after a run of toggles applied in call order, an id is hidden iff its initial status differs from the parity of its toggle count; an id never toggled keeps its entry |
| `GroupVisibility.VisibilityStore.constructor` | client/src/hooks/useGroupVisibility.tsx:19-20 | the hook starts with the empty map, and storage is untouched |
| `GroupVisibility.VisibilityStore.LoadOnMount` | client/src/hooks/useGroupVisibility.tsx:22-34 | a parsed stored map becomes the state, which then equals the stored copy; a missing entry or a read or parse failure leaves the empty state |
| `GroupVisibility.VisibilityStore.SaveToStorage` | client/src/hooks/useGroupVisibility.tsx:37-44 | a successful write stores the whole given map; a failed write leaves the stored entry unchanged and does not fail |
| `GroupVisibility.VisibilityStore.IsGroupHidden` | client/src/hooks/useGroupVisibility.tsx:46-51 | an id is reported hidden exactly when the enumeration's set contains it, which requires it to be a key; absent ids and ids mapped to false are not hidden |
| `GroupVisibility.VisibilityStore.HideGroup` | client/src/hooks/useGroupVisibility.tsx:53-60 | the state becomes `Hide` of the old state; storage then holds the full new map, or is unchanged when the write fails |
| `GroupVisibility.VisibilityStore.ShowGroup` | client/src/hooks/useGroupVisibility.tsx:62-70 | the state becomes `Show` of the old state; storage then holds the full new map, or is unchanged when the write fails |
| `GroupVisibility.VisibilityStore.ToggleGroupVisibility` | client/src/hooks/useGroupVisibility.tsx:72-81 | the state becomes `Toggle` of the old state, flipping the id's status; storage then holds the full new map, or is unchanged when the write fails |
| `GroupVisibility.VisibilityStore.GetHiddenGroupIds` | client/src/hooks/useGroupVisibility.tsx:83-85 | returns every id flagged `true`, each exactly once, and no other id; the state is not changed |
| `GroupVisibility.VisibilityStore.ShowAllGroups` | client/src/hooks/useGroupVisibility.tsx:87-90 | the state becomes the empty map, no id is hidden, the hidden ids are empty, and storage holds the empty map unless the write fails |
| `GroupVisibility.Reload` | client/src/hooks/useGroupVisibility.tsx:20-44 | a new hook instance starts from the stored map when there is one, so with the same map as a previous instance that was in sync; from a missing or unparseable entry it starts empty |
| `GroupListItem.IsNewGroup` | client/src/components/GroupListItem.tsx:64 | a new group has an update time, and its activity instant is its creation time |
| `GroupListItem.AbsentUpdateIsNotNew` | client/src/components/GroupListItem.tsx:64 | a group without `updated_at` is not new, and is labelled "Active" and "Updated" |
| `GroupListItem.ActivityInstantMillis` | client/src/components/GroupListItem.tsx:48-52 | the activity instant is `1000 * updated_at` when `updated_at` is present and nonzero, otherwise `1000 * created_at`; it is always a whole number of seconds |
| `GroupListItem.ActivityIsLatestWhenConsistent` | client/src/components/GroupListItem.tsx:50-52 | for timestamps at or after the epoch with `updated_at >= created_at`, the activity instant is the later timestamp in milliseconds |
| `GroupListItem.ActivityIsNotLatestInGeneral` | client/src/components/GroupListItem.tsx:50-52 | with `updated_at` earlier than `created_at`, the earlier `updated_at` is still the one shown |
| `GroupListItem.LastActivityText` | client/src/components/GroupListItem.tsx:48-62 | the text is the formatter's result for the activity instant when formatting succeeds, and `"recently"` when it fails; it never fails |
| `GroupListItem.ChipLabel` | client/src/components/GroupListItem.tsx:142 | the chip is "New" iff the group is new, and "Active" iff it is not |
| `GroupListItem.CaptionPrefix` | client/src/components/GroupListItem.tsx:162 | the caption prefix is "Created" iff the group is new, and "Updated" iff it is not |
| `GroupListItem.LabelsFollowNewness` | client/src/components/GroupListItem.tsx:140-162 | the chip and the caption never disagree: "New" goes with "Created" and "Active" with "Updated" |
| `GroupListItem.ToggleAriaLabel` | client/src/components/GroupListItem.tsx:182 | the button reads "Show group" exactly when the group is hidden, and "Hide group" exactly when it is not |
| `GroupListItem.GroupRoute` | client/src/components/GroupListItem.tsx:44 | the route is the `/group/` prefix followed by the group id |
| `GroupListItem.HasActivity` | client/src/components/GroupListItem.tsx:138 | the activity line has something to show exactly when the activity instant is not the epoch |
| `GroupListItem.ActivityLineOf` | client/src/components/GroupListItem.tsx:138-166 | the activity line is shown exactly when a timestamp is nonzero; its chip says "New" iff the group is new, and its caption is the prefix, a space and the activity text |
| `GroupListItem.ActivityLineAsWritten` | client/src/components/GroupListItem.tsx:138-166 | as written, the activity line is rendered exactly when a timestamp is nonzero, and a stray text, always "0", appears exactly when `created_at` is 0 and `updated_at` is 0 |
| `GroupListItem.AsWrittenDiffersOnlyOnZeroTimestamps` | client/src/components/GroupListItem.tsx:138 | the guard as written renders the intended line for every group except one whose timestamps are both 0, where it renders the text "0" |
| `GroupListItem.StrayZeroForEpochGroup` | client/src/components/GroupListItem.tsx:138 | for `created_at = updated_at = 0`, the code as written renders "0" where nothing is intended |
| `GroupListItem.GroupRow.constructor` | client/src/components/GroupListItem.tsx:26-32 | a mounted row is not animating and has nothing scheduled or reported |
| `GroupListItem.GroupRow.Rerender` | client/src/components/GroupListItem.tsx:26-30 | new props replace the group and hidden flag; local state and scheduled callbacks survive |
| `GroupListItem.GroupRow.HandleGroupClick` | client/src/components/GroupListItem.tsx:42-46 | a click navigates to the group's route iff the group is not hidden, which is exactly when the action area is enabled |
| `GroupListItem.GroupRow.HandleToggleVisibility` | client/src/components/GroupListItem.tsx:34-40 | a click sets the animating flag, so the row collapses, and schedules one callback carrying the current group id |
| `GroupListItem.GroupRow.FireDeferred` | client/src/components/GroupListItem.tsx:36-39 | the oldest scheduled callback reports its id to the toggle callback exactly once, then clears the animating flag; every click is reported exactly once, in click order |
| `GroupListItem.DoubleClickToggle` | client/src/components/GroupListItem.tsx:34-40 | two quick clicks report the id twice, but the first callback already re-expands the row while the second is pending |

## Left out

- The schema migration adding `created_at` and `updated_at` with the fixed default 1725868800 is database DDL with no logic. It is not part of this model.
- `localStorage`, `JSON.parse` and `JSON.stringify` are abstracted as the `StoredEntry` value. A save followed by a load is taken to give back the same map. Stored text that parses to something other than an object (`null`, an array, non-boolean values) is not modelled.
- `console.warn` on a failed load or save is not modelled.
- GroupVisibility.VisibilityStore.GetHiddenGroupIds: does not state the order of the ids. `Object.keys` lists array-index-like keys (such as "12") first in ascending numeric order, then the other keys in insertion order; the model's map records neither.
- React's state cells, effect and callback dependency arrays are not modelled. Each mutator works on the current map, so stale closures across re-renders are outside the model.
- `formatDistanceToNow` and the clock are one opaque, possibly failing function parameter. Its wording is not modelled.
- GroupListItem.ActivityInstantMillis: uses unbounded integers. It does not model floating-point rounding or the invalid `Date` a huge timestamp would give; the formatter parameter can fail on those instead.
- The real timers are not modelled: the 150 ms `setTimeout` and the 300 ms collapse. A scheduled callback fires as an explicit later step (`FireDeferred`). A row unmounting before its callback fires is not modelled.
- How the host wires `onToggleVisibility` to the store is not part of this model. `ApplyToggles` and `ToggleRunParity` state what a run of reported toggles does to the map when applied in order.
- The row's `isHidden` prop defaults to `false` when omitted; `GroupRow` and `Rerender` take it as a required flag, which a caller passes as `false` for the same effect.
- All MUI markup and styling is not modelled: elevation, opacity, colours, borders, icons and the group name's typography. `react-router` is reduced to the route string.

## Findings

| source | as written | input that shows it | evidently intended | confidence | as-written member | corrected member |
|---|---|---|---|---|---|---|
| client/src/components/GroupListItem.tsx:138 | the guard that decides whether to render the activity line evaluates to the number 0 when both timestamps are 0, and React renders that number as the text "0" | `created_at = 0`, `updated_at = 0` | render no activity line when neither timestamp is set | not executed; medium (needs a backend that sends 0 for both) | `GroupListItem.StrayZeroForEpochGroup` | `GroupListItem.ActivityLineOf` |
