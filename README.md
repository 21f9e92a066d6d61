# AttributeSystem in Dafny

A verified model of `UAttributeComponent`, the core of the AttributeSystem
Unreal Engine plugin. The component keeps a set of numeric attributes, each
identified by a gameplay tag (Health, Mana, Stamina, ...). Each attribute has
a current value, lower and upper bounds, and regeneration settings. The
component lets callers:

- read attributes and set them through five arithmetic operations;
- move either bound;
- apply additive modifiers, and revert timed ones when they expire;
- regenerate values on a timer;
- add, remove and reset attributes;
- save values to a save-game slot and load them back.

The component broadcasts through multicast delegates when a value or bound is
set, a modifier is applied or removed, a regeneration tick changes a value, an
attribute is added or removed, a threshold or death is reached, attributes are
loaded, reset or restored from a save, and once initialisation completes. Some
changes are not broadcast: `SetUseRegen`, every timer start or stop, and the
replacement of edited index entries when the index is rebuilt from the list.

The project has four modules, one per part of the plugin:

| file | module | models |
|---|---|---|
| `AttributeData.dfy` | `AttributeData` | `FAttribute` and the data asset (`Public/AttributeData.h`) |
| `AttributeTypes.dfy` | `AttributeTypes` | the operation enum, `FAttributeModifier`, the delegate payloads, the timer requests (`Public/AttributeComponent.h`) |
| `AttributeLogic.dfy` | `AttributeLogic` | what each routine of `Private/AttributeComponent.cpp` computes, as functions, plus the lemmas about them |
| `AttributeComponent.dfy` | `AttributeComponentModel` | the component itself, as a class whose methods update its fields in place |

How the engine's pieces are represented:

- **Containers.** The component's `Attributes` array, `AttributeMap`,
  `RegenTimers` and `ActiveModifiers` are class fields of type `seq` or `map`.
  The methods reassign them.
- **The tag index.** The index holds copies of the list's entries.
  `InitializeAttributeMap` rebuilds it from the list. The invariant `Valid()`
  says that its keys are exactly the list's tags and that each entry is stored
  under its own tag.
- **Delegate broadcasts.** Each broadcast is appended to the log `events`.
- **Timers.** A timer handle is a `bool` in `regenTimers`, true while the timer
  runs. Every timer the component starts (a regeneration timer, or a modifier's
  revert) is appended to the log `timerCalls`.
- **Hash-map order.** `RegenerateAttributes` and `LoadAttributes` walk a hash
  map, whose visiting order the code does not fix. Each method takes that order
  as an input `order`, required to enumerate the map's keys exactly once.
- **Numbers.** Floats are `real`. `FLT_MAX` is the constant `FltMax`.
  `FMath::Clamp(X, Min, Max)` is `X < Min ? Min : (X < Max ? X : Max)`.

The model follows the code as written, including these behaviours a reader
might not expect:

- The value setter always broadcasts the pre-change event, including when the
  value does not change.
- `AddAttribute` broadcasts the change before the addition.
- The maximum bound is clamped to `FLT_MAX`, not left unbounded.
- `ApplyModifier` and `RemoveModifier` write the index directly. They bypass
  the value setter, so they broadcast no pre-change event and do not re-check
  regeneration.
- `RemoveModifier` removes every matching modifier, not only the first.
- `DecreaseHealth` fires Death on every call that leaves Health at or below 0.
  This includes calls when Health is not registered, because the read then
  gives 0.
- `RemoveAttribute` and `SetUseRegen(false)` do not cancel a running timer.
- The bound setters, and `LoadAttributes`, never re-clamp the current value.
- `ResetAllAttributes` keeps the active modifiers.

## Model

| member | source | states |
|---|---|---|
| `AttributeData.DefaultAttribute` | Source/AttributeSystem/Public/AttributeData.h:37-39 | the default attribute is untagged, has value 0 in bounds [0, 100] and regeneration off, and is inside its bounds |
| `AttributeData.NewAttribute` | Source/AttributeSystem/Public/AttributeData.h:41-43 | the full constructor stores each argument in its field; the regeneration arguments default to off, 0 and 0 |
| `AttributeData.NewAttributeIsUnchecked` | Source/AttributeSystem/Public/AttributeData.h:41-43 | the constructor validates nothing: an attribute can start above its maximum, and the short form leaves regeneration off |
| `AttributeTypes.DefaultModifier` | Source/AttributeSystem/Public/AttributeComponent.h:47-48 | the default modifier is untagged, has value 0, is permanent and schedules no revert |
| `AttributeTypes.NewModifier` | Source/AttributeSystem/Public/AttributeComponent.h:50-51 | the modifier constructor stores its arguments; the duration defaults to permanent |
| `AttributeTypes.PermanentNeverReverts` | Source/AttributeSystem/Public/AttributeComponent.h:45 | a permanent modifier (duration -1) never schedules a revert, and neither does one built with the default duration |
| `AttributeLogic.Clamp` | Source/AttributeSystem/Private/AttributeComponent.cpp:507 | with ordered bounds the result lies within them; an input inside the bounds is returned unchanged; an input below the lower bound gives that bound, and one above the upper bound gives that bound |
| `AttributeLogic.ApplyOperation` | Source/AttributeSystem/Private/AttributeComponent.cpp:474-503 | Override proposes the input; Divide by zero proposes the old value |
| `AttributeLogic.OperationInverses` | Source/AttributeSystem/Private/AttributeComponent.cpp:476-500 | Add and Subtract undo each other; Multiply is undone by Divide for a non-zero amount; Divide by zero changes nothing |
| `AttributeLogic.CommitValue` | Source/AttributeSystem/Private/AttributeComponent.cpp:507 | only the value changes; with ordered bounds it ends inside them; a proposal already inside the bounds is stored exactly |
| `AttributeLogic.CommitMin` | Source/AttributeSystem/Private/AttributeComponent.cpp:127 | only the minimum changes, and it ends in [0, max] |
| `AttributeLogic.CommitMax` | Source/AttributeSystem/Private/AttributeComponent.cpp:178 | only the maximum changes, and it ends in [min, FLT_MAX] |
| `AttributeLogic.SettersKeepBoundsOrdered` | Source/AttributeSystem/Private/AttributeComponent.cpp:91-191 | starting from 0 <= min <= max <= FLT_MAX, every value, minimum or maximum update keeps those bounds ordered, and a value update leaves the value inside them |
| `AttributeLogic.BoundSettersCanStrandValue` | Source/AttributeSystem/Private/AttributeComponent.cpp:91-191 | the bound setters do not re-clamp the value: lowering the maximum below it, or raising the minimum above it, leaves the value out of range |
| `AttributeLogic.OverrideIsIdempotent` | Source/AttributeSystem/Private/AttributeComponent.cpp:469-520 | applying the same Override twice commits the same attribute as applying it once |
| `AttributeLogic.DivideByZeroKeepsInRangeValue` | Source/AttributeSystem/Private/AttributeComponent.cpp:483-491 | dividing by zero leaves an in-range attribute exactly as it was |
| `AttributeLogic.ValueEvents` | Source/AttributeSystem/Private/AttributeComponent.cpp:505-513 | the setter always broadcasts the pre-change event with the unclamped proposal; it adds a change event with the committed value if and only if the value changed |
| `AttributeLogic.OverrideTwiceChangesOnce` | Source/AttributeSystem/Private/AttributeComponent.cpp:505-513 | repeating an Override broadcasts only the pre-change event the second time, with no change event |
| `AttributeLogic.NormalizedInUnitRange` | Source/AttributeSystem/Private/AttributeComponent.cpp:229-242 | for distinct bounds, the normalised value scaled by (max - min) gives back value - min, and it lies in [0, 1] when the value is inside its bounds |
| `AttributeLogic.BuildMap` | Source/AttributeSystem/Private/AttributeComponent.cpp:46-54 | every listed tag becomes a key, and each entry is stored under its own tag |
| `AttributeLogic.BuildMapKeys` | Source/AttributeSystem/Private/AttributeComponent.cpp:46-54 | the rebuilt index has exactly the list's tags as keys |
| `AttributeLogic.BuildMapLastWins` | Source/AttributeSystem/Private/AttributeComponent.cpp:46-54 | when a tag repeats in the list, the index holds its last entry |
| `AttributeLogic.BuildMapAppend` | Source/AttributeSystem/Private/AttributeComponent.cpp:265-270 | rebuilding after an append gives the old rebuild plus the appended entry, replacing any earlier entry with that tag |
| `AttributeLogic.RemoveTag` | Source/AttributeSystem/Private/AttributeComponent.cpp:286 | the result keeps exactly the entries whose tag differs, and is no longer than the input |
| `AttributeLogic.RemoveTagAppend` | Source/AttributeSystem/Private/AttributeComponent.cpp:286 | the removal distributes over concatenation, so the survivors keep their order and their repeats |
| `AttributeLogic.RemoveTagTags` | Source/AttributeSystem/Private/AttributeComponent.cpp:282-288 | removing a tag from the list removes exactly that tag from its set of tags |
| `AttributeLogic.RemoveMatching` | Source/AttributeSystem/Private/AttributeComponent.cpp:345 | the result keeps exactly the modifiers that do not match (tag, value), and is no longer than the input |
| `AttributeLogic.RemoveMatchingAppend` | Source/AttributeSystem/Private/AttributeComponent.cpp:345 | the filter distributes over concatenation, so it keeps the survivors in their original order |
| `AttributeLogic.RemoveMatchingTakesDuplicates` | Source/AttributeSystem/Private/AttributeComponent.cpp:345 | one removal drops both of two identical modifiers |
| `AttributeLogic.WithModifier` | Source/AttributeSystem/Private/AttributeComponent.cpp:317 | only the value changes, and with ordered bounds it ends inside them |
| `AttributeLogic.WithoutModifier` | Source/AttributeSystem/Private/AttributeComponent.cpp:344 | only the value changes, and with ordered bounds it ends inside them |
| `AttributeLogic.ApplyThenRemoveRestores` | Source/AttributeSystem/Private/AttributeComponent.cpp:310-350 | applying then reverting a modifier restores the attribute when neither step clamped |
| `AttributeLogic.ClampedModifierIsNotRestored` | Source/AttributeSystem/Private/AttributeComponent.cpp:310-350 | +15 on a full Health of 100 is lost to the clamp, and the revert then leaves 85; -15 on 100 gives 85 and its revert restores 100 |
| `AttributeLogic.RegenCheck` | Source/AttributeSystem/Private/AttributeComponent.cpp:522-552 | a tag that wants regeneration ends with a running timer, and an already running timer is left alone; a full tag with regeneration on loses its handle; otherwise nothing changes; other tags are never touched |
| `AttributeLogic.RegenStarts` | Source/AttributeSystem/Private/AttributeComponent.cpp:531-535 | a timer is started if and only if regeneration is wanted and the tag's timer is not already running |
| `AttributeLogic.RegenCheckIdempotent` | Source/AttributeSystem/Private/AttributeComponent.cpp:522-552 | a second check of the same tag changes nothing and starts no timer |
| `AttributeLogic.RegenCheckAll` | Source/AttributeSystem/Private/AttributeComponent.cpp:28-32 | checking every listed tag in turn only ever sets handles running, and drops a handle only for a tag that is full with regeneration on |
| `AttributeLogic.RegenStartsAll` | Source/AttributeSystem/Private/AttributeComponent.cpp:28-32 | those checks start at most one timer per entry, each for a tag that wants regeneration |
| `AttributeLogic.RegenCheckAllSettles` | Source/AttributeSystem/Private/AttributeComponent.cpp:28-32 | after checking every listed tag, each one is settled by its attribute alone (running if it wants regeneration, absent if it is full); every other handle keeps its entry |
| `AttributeLogic.StartRegenAll` | Source/AttributeSystem/Private/AttributeComponent.cpp:391-405 | the walk over the list only ever adds or sets handles running |
| `AttributeLogic.StartRegenCalls` | Source/AttributeSystem/Private/AttributeComponent.cpp:393-403 | the walk starts at most one timer per entry, never for a handle that was already running |
| `AttributeLogic.StartRegenAllActivates` | Source/AttributeSystem/Private/AttributeComponent.cpp:391-405 | after the walk, every list entry that wants regeneration has a running timer; no handle is lost and no running timer is stopped |
| `AttributeLogic.Ticked` | Source/AttributeSystem/Private/AttributeComponent.cpp:419 | a tick changes only the value, and with ordered bounds the value stays inside them |
| `AttributeLogic.TickStopsExactlyAtMax` | Source/AttributeSystem/Private/AttributeComponent.cpp:423-437 | a tick stops its timer if and only if it changed the value and reached the maximum; a tick that ends below the maximum leaves the timer running |
| `AttributeLogic.TickedMap` | Source/AttributeSystem/Private/AttributeComponent.cpp:411-425 | ticking keeps the keys and the tags; ticked tags with regeneration on are advanced; every other entry is unchanged |
| `AttributeLogic.TickedTimers` | Source/AttributeSystem/Private/AttributeComponent.cpp:428-435 | a handle is cleared exactly when its tick reached the maximum; every handle keeps its entry |
| `AttributeLogic.TickEvents` | Source/AttributeSystem/Private/AttributeComponent.cpp:411-444 | a pass broadcasts at most one change per visited handle, each for a tag with regeneration on and carrying its ticked value |
| `AttributeLogic.TickEvent` | Source/AttributeSystem/Private/AttributeComponent.cpp:423-426 | a tick broadcasts at most one change, exactly when it changed a value with regeneration on |
| `AttributeLogic.HealthRegenScenario` | Source/AttributeSystem/Private/AttributeComponent.cpp:407-445 | Health 50 in [0, 100] regenerating 10: Subtract 30 gives 20 and the check of that change starts the timer; ticks one to seven give 30, 40, ..., 90 and each keeps the timer; the eighth tick reaches 100 and stops it |
| `AttributeLogic.ChangedEvents` | Source/AttributeSystem/Private/AttributeComponent.cpp:28-30 | one change broadcast per list entry, in list order, with that entry's value |
| `AttributeLogic.Snapshot` | Source/AttributeSystem/Private/AttributeComponent.cpp:560-563 | the payload holds exactly the index's tags, each with its current value |
| `AttributeLogic.Merge` | Source/AttributeSystem/Private/AttributeComponent.cpp:582-589 | the merge keeps the keys; tags in both take the saved value unclamped with every other field kept; other entries are unchanged |
| `AttributeLogic.MergedOn` | Source/AttributeSystem/Private/AttributeComponent.cpp:582-589 | merging the tags merged so far keeps the keys and tags; a merged tag held by the payload takes the saved value with every other field kept; every other entry is unchanged |
| `AttributeLogic.MergeEvents` | Source/AttributeSystem/Private/AttributeComponent.cpp:582-589 | a merge pass broadcasts at most one change per visited tag, each for a tag the payload holds and carrying its saved value |
| `AttributeLogic.MergeEvent` | Source/AttributeSystem/Private/AttributeComponent.cpp:584-588 | merging a tag broadcasts its saved value if and only if the payload holds the tag |
| `AttributeLogic.SaveThenLoadRestores` | Source/AttributeSystem/Private/AttributeComponent.cpp:554-599 | round trip: loading a saved payload into a map whose values alone have changed restores the map as saved |
| `AttributeLogic.RestoreScenario` | Source/AttributeSystem/Private/AttributeComponent.cpp:576-599 | restoring {Health: 40} into Health and Mana sets Health to 40, leaves Mana untouched and broadcasts one change |
| `AttributeComponentModel.AttributeComponent.constructor` | Source/AttributeSystem/Private/AttributeComponent.cpp:13-17 | a new component has no attributes, timers, modifiers or broadcasts, and satisfies the invariant |
| `AttributeComponentModel.AttributeComponent.GetAttributeValue` | Source/AttributeSystem/Private/AttributeComponent.cpp:65-74 | the value of a registered tag; 0 for an unknown tag |
| `AttributeComponentModel.AttributeComponent.GetAttributeValues` | Source/AttributeSystem/Private/AttributeComponent.cpp:211-227 | the value, minimum and maximum of a registered tag; all three are 0 for an unknown tag |
| `AttributeComponentModel.AttributeComponent.GetAttribute` | Source/AttributeSystem/Private/AttributeComponent.cpp:194-203 | the stored entry for a registered tag; the default attribute (untagged, in range) for an unknown tag; under the invariant the result carries the requested tag or none |
| `AttributeComponentModel.AttributeComponent.GetAllAttributes` | Source/AttributeSystem/Private/AttributeComponent.cpp:205-209 | a copy of the list, whose tags are the index's keys under the invariant |
| `AttributeComponentModel.AttributeComponent.GetAttributeMap` | Source/AttributeSystem/Private/AttributeComponent.cpp:244-248 | a copy of the index, each entry under its own tag under the invariant |
| `AttributeComponentModel.AttributeComponent.GetAttributeNormalized` | Source/AttributeSystem/Private/AttributeComponent.cpp:229-242 | 0 for an unknown tag or equal bounds; otherwise a result that scaled by (max - min) gives value - min, and lies in [0, 1] for an in-range value |
| `AttributeComponentModel.AttributeComponent.IsValidAttribute` | Source/AttributeSystem/Private/AttributeComponent.cpp:260-263 | a tag is valid if and only if the index holds it, and under the invariant if and only if the list holds it |
| `AttributeComponentModel.AttributeComponent.GetHealth` | Source/AttributeSystem/Private/AttributeComponent.cpp:452-455 | Health's value, 0 when Health is not registered |
| `AttributeComponentModel.AttributeComponent.GetMaxHealth` | Source/AttributeSystem/Private/AttributeComponent.cpp:457-462 | Health's maximum, 0 when Health is not registered |
| `AttributeComponentModel.AttributeComponent.GetHealthAttributeValues` | Source/AttributeSystem/Private/AttributeComponent.cpp:447-450 | Health's value and bounds, all 0 when Health is not registered |
| `AttributeComponentModel.AttributeComponent.GetHealthNormalized` | Source/AttributeSystem/Private/AttributeComponent.cpp:464-467 | Health normalised: 0 when unregistered or when the bounds are equal; otherwise a result that scaled by (max - min) gives value - min, and lies in [0, 1] when Health is in range |
| `AttributeComponentModel.AttributeComponent.InitializeAttributeMap` | Source/AttributeSystem/Private/AttributeComponent.cpp:46-54 | the index becomes the in-order rebuild of the list, and the invariant holds |
| `AttributeComponentModel.AttributeComponent.CheckRegenStatus` | Source/AttributeSystem/Private/AttributeComponent.cpp:522-552 | the timer table becomes the regeneration check of the tag, and the timer log grows by the timer that check starts, if any |
| `AttributeComponentModel.AttributeComponent.StartRegenTimer` | Source/AttributeSystem/Private/AttributeComponent.cpp:391-405 | the timer table and log become the walk over the list, which activates every entry that wants regeneration |
| `AttributeComponentModel.AttributeComponent.RegenerateAttributes` | Source/AttributeSystem/Private/AttributeComponent.cpp:407-445 | after one pass over every handle, the index is ticked and the timer table cleared where a tick reached the maximum; the change broadcasts follow the visiting order; the invariant is kept |
| `AttributeComponentModel.AttributeComponent.TickInOrder` | Source/AttributeSystem/Private/AttributeComponent.cpp:411-444 | the loop ticks exactly the visited handles' tags |
| `AttributeComponentModel.AttributeComponent.TickOne` | Source/AttributeSystem/Private/AttributeComponent.cpp:413-443 | one pass of the loop extends the ticked set by one tag and appends that tag's broadcast |
| `AttributeComponentModel.AttributeComponent.SetValueEffect` | Source/AttributeSystem/Private/AttributeComponent.cpp:469-520 | the setter's effect keeps the index's keys, changes at most the value of the given tag, and only appends to the broadcast log |
| `AttributeComponentModel.AttributeComponent.SetAttributeValueInternal` | Source/AttributeSystem/Private/AttributeComponent.cpp:469-520 | an unknown tag changes nothing; otherwise the clamped value is stored, the pre-change and change broadcasts follow the value events, and the regeneration check runs only on a change; the invariant is kept |
| `AttributeComponentModel.AttributeComponent.SetAttributeValue` | Source/AttributeSystem/Private/AttributeComponent.cpp:76-79 | the same effect as the internal setter, with the operation defaulting to Override |
| `AttributeComponentModel.AttributeComponent.DecreaseAttributeValue` | Source/AttributeSystem/Private/AttributeComponent.cpp:81-84 | the effect of the setter with Subtract |
| `AttributeComponentModel.AttributeComponent.IncreaseAttributeValue` | Source/AttributeSystem/Private/AttributeComponent.cpp:86-89 | the effect of the setter with Add |
| `AttributeComponentModel.AttributeComponent.SetAttributeMinValue` | Source/AttributeSystem/Private/AttributeComponent.cpp:91-140 | an unknown tag changes nothing; otherwise the minimum is clamped into [0, max] with the value untouched, and a change is broadcast and re-checks regeneration |
| `AttributeComponentModel.AttributeComponent.SetAttributeMaxValue` | Source/AttributeSystem/Private/AttributeComponent.cpp:142-191 | an unknown tag changes nothing; otherwise the maximum is clamped into [min, FLT_MAX] with the value untouched, and a change is broadcast and re-checks regeneration |
| `AttributeComponentModel.AttributeComponent.SetUseRegen` | Source/AttributeSystem/Private/AttributeComponent.cpp:250-258 | the flag is stored and regeneration re-checked; turning it off changes no timer |
| `AttributeComponentModel.AttributeComponent.CheckThresholds` | Source/AttributeSystem/Private/AttributeComponent.cpp:298-308 | a threshold event is broadcast exactly when a registered value is at or below its minimum |
| `AttributeComponentModel.AttributeComponent.DecreaseHealth` | Source/AttributeSystem/Private/AttributeComponent.cpp:352-360 | Health is set with Subtract, and Death is broadcast whenever the resulting Health is at or below 0, including when Health is unregistered |
| `AttributeComponentModel.AttributeComponent.IncreaseHealth` | Source/AttributeSystem/Private/AttributeComponent.cpp:362-365 | the effect of the setter on Health with Add |
| `AttributeComponentModel.AttributeComponent.ApplyModifier` | Source/AttributeSystem/Private/AttributeComponent.cpp:310-335 | an unknown tag changes nothing; otherwise the value gains the modifier clamped, the modifier is appended, one change is broadcast, and a revert is scheduled exactly when the duration is positive |
| `AttributeComponentModel.AttributeComponent.RemoveModifier` | Source/AttributeSystem/Private/AttributeComponent.cpp:337-350 | an unknown tag changes nothing; otherwise the value loses the amount clamped, every matching modifier is dropped, and one change is broadcast |
| `AttributeComponentModel.AttributeComponent.AddAttribute` | Source/AttributeSystem/Private/AttributeComponent.cpp:265-280 | an existing tag changes nothing; otherwise the definition is appended, the index is rebuilt (the old list's rebuild plus the new entry), a change and then an addition are broadcast, and regeneration is checked |
| `AttributeComponentModel.AttributeComponent.RemoveAttribute` | Source/AttributeSystem/Private/AttributeComponent.cpp:282-296 | an unknown tag changes nothing; otherwise every list entry with the tag is removed, the index loses exactly that key, a change to 0 and a removal are broadcast, and the timers are untouched |
| `AttributeComponentModel.AttributeComponent.AnnounceAll` | Source/AttributeSystem/Private/AttributeComponent.cpp:28-32 | one change broadcast per list entry, and the regeneration checks of every entry in list order |
| `AttributeComponentModel.AttributeComponent.LoadAttributesFromDataAsset` | Source/AttributeSystem/Private/AttributeComponent.cpp:19-44 | no asset changes nothing; an asset's list becomes the backup and the live list, the index is rebuilt, each entry is broadcast and checked, then the initialized event fires |
| `AttributeComponentModel.AttributeComponent.BeginPlay` | Source/AttributeSystem/Private/AttributeComponent.cpp:57-63 | the data asset is loaded (or, without one, nothing is loaded), then the list's timers are started: the list, index, backup and broadcasts are those of the load, modifiers are kept, the timer table and log are the load's checks followed by the walk over the list, every list entry that wants regeneration ends with a running timer, and the invariant is kept |
| `AttributeComponentModel.AttributeComponent.ResetAllAttributes` | Source/AttributeSystem/Private/AttributeComponent.cpp:368-389 | all timers are forgotten, the list is restored from the backup, the index is rebuilt, and each entry is broadcast and checked; modifiers are kept |
| `AttributeComponentModel.AttributeComponent.MergeOne` | Source/AttributeSystem/Private/AttributeComponent.cpp:582-589 | one pass of the merge loop extends the merged set by one tag and appends that tag's broadcast |
| `AttributeComponentModel.AttributeComponent.MergeInOrder` | Source/AttributeSystem/Private/AttributeComponent.cpp:580-590 | the loop merges exactly the visited tags |
| `AttributeComponentModel.AttributeComponent.SaveAttributes` | Source/AttributeSystem/Private/AttributeComponent.cpp:554-574 | the payload holds every indexed tag with its current value |
| `AttributeComponentModel.AttributeComponent.LoadAttributes` | Source/AttributeSystem/Private/AttributeComponent.cpp:576-599 | with a stored payload, the index becomes the merge of the payload, with its broadcasts in visiting order; without one, nothing changes and a fresh snapshot is returned to be written |

## Left out

- Engine lifecycle. The engine's `Super::BeginPlay` call and the constructor's tick setting, default slot name and user index do not affect the model's state.
- Logging. `UE_LOG` output is not modelled.
- Timing. The model does not represent regeneration periods (`RegenRate`), modifier durations as time, the next-tick deferral before a revert is scheduled, or which timer fires when. A scheduled revert is recorded as a request. Its later run is `RemoveModifier` with the modifier's tag and value.
- `AttributeComponentModel.AttributeComponent.StartRegenTimer` and `AttributeComponentModel.AttributeComponent.CheckRegenStatus` mark a handle running and log a started timer whatever the entry's `RegenRate`. The engine's `SetTimer` with a rate of 0 or less clears the handle instead, and `RegenRate` defaults to 0 (`Public/AttributeData.h:38`, `:41`), so such an entry gets no timer in the engine. Rates are not part of the model.
- Timer stopping. `ClearTimer` is shown only as the handle turning false or its entry being removed. It is not written to the log.
- Each regeneration timer, when it fires, ticks every handle in the table. This is a consequence of `RegenerateAttributes` iterating over the whole table. The model has one call per firing and does not say which timer fired.
- Delegate subscribers. Subscribers and the order they are called in are outside the component. `OnHealthChanged` is declared but never broadcast, so it has no event.
- Save-game I/O. Creating, loading and writing a slot become a payload parameter or result. `SaveAttributes` is not shown returning whether `SaveGameToSlot` succeeded, because it only logs that result. Slot names and user indices are not modelled.
- Floating point. Values are real numbers, so single-precision rounding, NaN and infinities are not captured. `FLT_MAX` appears only as the ceiling of the maximum bound.
- Gameplay tags. A tag is a value compared by equality. The global tag registry and `RequestGameplayTag` are not modelled, and Health is the constant tag `Attribute.Health`.
- The operation switch's `default:` branches cannot be reached, because the operation type has exactly five cases.
- `AttributeComponentModel.AttributeComponent.RegenerateAttributes` and `AttributeComponentModel.AttributeComponent.LoadAttributes` state their broadcasts for a caller-supplied enumeration of the hash map's keys, not for the engine's actual order. `SaveAttributes` builds a map, so its result does not depend on the order.
