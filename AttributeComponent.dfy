// The attribute component (Private/AttributeComponent.cpp with the state
// declared in Public/AttributeComponent.h). Its containers are fields that the
// methods update in place; delegate broadcasts are appended to `events`, and
// requests to the engine's timer manager that start something to `timerCalls`.

module AttributeComponentModel {
  import opened AttributeData
  import opened AttributeTypes
  import opened AttributeLogic

  class AttributeComponent {
    /** The live definition list (`Attributes`). */
    var attributes: seq<Attribute>
    /** The tag index (`AttributeMap`): COPIES of the list's entries, which every
        mutator edits; rebuilt from the list by InitializeAttributeMap. */
    var attributeMap: map<Tag, Attribute>
    /** One timer handle per tag (`RegenTimers`), true while the timer runs. */
    var regenTimers: map<Tag, bool>
    /** The applied modifiers, in order, duplicates allowed (`ActiveModifiers`). */
    var activeModifiers: seq<Modifier>
    /** The list as loaded from the data asset (`InitialAttributesBackup`). */
    var initialAttributesBackup: seq<Attribute>
    /** Every delegate broadcast so far, in order. */
    var events: seq<Event>
    /** Every timer started so far, in order. */
    var timerCalls: seq<TimerCall>

    /** The index holds exactly the list's tags, each entry under its own tag. */
    ghost predicate Valid()
      reads this
    {
      && attributeMap.Keys == Tags(attributes)
      && forall t :: t in attributeMap ==> attributeMap[t].tag == t
    }

    /** A component with no attributes, timers, modifiers or broadcasts. */
    constructor ()
      ensures Valid()
      ensures attributes == [] && attributeMap == map[] && regenTimers == map[]
      ensures activeModifiers == [] && initialAttributesBackup == []
      ensures events == [] && timerCalls == []
    {
      attributes := [];
      attributeMap := map[];
      regenTimers := map[];
      activeModifiers := [];
      initialAttributesBackup := [];
      events := [];
      timerCalls := [];
    }

    // -------------------------------------------------------------------------
    // Reads
    // -------------------------------------------------------------------------

    /** The value of a registered tag; 0 for an unknown tag. */
    function GetAttributeValue(tag: Tag): (r: real)
      reads this
      ensures tag in attributeMap ==> r == attributeMap[tag].value
      ensures tag !in attributeMap ==> r == 0.0
    {
      if tag in attributeMap then attributeMap[tag].value else 0.0
    }

    /** Value, minimum and maximum of a registered tag; all three 0 for an unknown tag. */
    function GetAttributeValues(tag: Tag): (r: (real, real, real))
      reads this
      ensures tag in attributeMap ==>
                r == (attributeMap[tag].value, attributeMap[tag].minValue, attributeMap[tag].maxValue)
      ensures tag !in attributeMap ==> r == (0.0, 0.0, 0.0)
    {
      if tag in attributeMap then
        (attributeMap[tag].value, attributeMap[tag].minValue, attributeMap[tag].maxValue)
      else (0.0, 0.0, 0.0)
    }

    /** The stored copy for a registered tag; the default attribute (untagged,
        value 0 in [0, 100]) for an unknown tag. */
    function GetAttribute(tag: Tag): (r: Attribute)
      reads this
      ensures tag in attributeMap ==> r == attributeMap[tag]
      ensures tag !in attributeMap ==> r == DefaultAttribute() && InRange(r)
      ensures Valid() ==> (r.tag == tag || (tag !in attributeMap && r.tag == EmptyTag))
    {
      if tag in attributeMap then attributeMap[tag] else DefaultAttribute()
    }

    /** (value - min) / (max - min) for a registered tag whose bounds differ;
        0 otherwise. Inside its bounds the result lies in [0, 1]. */
    function GetAttributeNormalized(tag: Tag): (r: real)
      reads this
      ensures tag !in attributeMap || attributeMap[tag].maxValue == attributeMap[tag].minValue ==> r == 0.0
      ensures tag in attributeMap && attributeMap[tag].maxValue != attributeMap[tag].minValue ==>
                r * (attributeMap[tag].maxValue - attributeMap[tag].minValue)
                == attributeMap[tag].value - attributeMap[tag].minValue
      ensures tag in attributeMap ==>
                (attributeMap[tag].minValue <= attributeMap[tag].value <= attributeMap[tag].maxValue ==> 0.0 <= r <= 1.0)
    {
      if tag in attributeMap && attributeMap[tag].maxValue != attributeMap[tag].minValue then
        var a := attributeMap[tag];
        NormalizedInUnitRange(a.value, a.minValue, a.maxValue);
        (a.value - a.minValue) / (a.maxValue - a.minValue)
      else 0.0
    }

    /** A tag is valid when the index holds it, which is when the list holds it. */
    function IsValidAttribute(tag: Tag): (r: bool)
      reads this
      ensures r <==> tag in attributeMap
      ensures Valid() ==> (r <==> tag in Tags(attributes))
    {
      tag in attributeMap
    }

    /** A copy of the live list. Under the invariant its tags are the index's keys. */
    function GetAllAttributes(): (r: seq<Attribute>)
      reads this
      ensures r == attributes
      ensures Valid() ==> Tags(r) == attributeMap.Keys
    {
      attributes
    }

    /** A copy of the index. Under the invariant each entry is stored under its own tag. */
    function GetAttributeMap(): (r: map<Tag, Attribute>)
      reads this
      ensures r == attributeMap
      ensures Valid() ==> forall t :: t in r ==> r[t].tag == t
    {
      attributeMap
    }

    /** The Health value, 0 when Health is not registered. */
    function GetHealth(): (r: real)
      reads this
      ensures Health in attributeMap ==> r == attributeMap[Health].value
      ensures Health !in attributeMap ==> r == 0.0
    {
      GetAttributeValue(Health)
    }

    /** Health's maximum, 0 when Health is not registered. */
    function GetMaxHealth(): (r: real)
      reads this
      ensures Health in attributeMap ==> r == attributeMap[Health].maxValue
      ensures Health !in attributeMap ==> r == 0.0
    {
      GetAttributeValues(Health).2
    }

    /** Health's value, minimum and maximum, all 0 when Health is not registered. */
    function GetHealthAttributeValues(): (r: (real, real, real))
      reads this
      ensures Health in attributeMap ==>
                r == (attributeMap[Health].value, attributeMap[Health].minValue, attributeMap[Health].maxValue)
      ensures Health !in attributeMap ==> r == (0.0, 0.0, 0.0)
    {
      GetAttributeValues(Health)
    }

    /** Health normalised into its bounds; 0 when unregistered or the bounds coincide. */
    function GetHealthNormalized(): (r: real)
      reads this
      ensures Health !in attributeMap || attributeMap[Health].maxValue == attributeMap[Health].minValue ==> r == 0.0
      ensures Health in attributeMap ==>
                (attributeMap[Health].minValue <= attributeMap[Health].value <= attributeMap[Health].maxValue ==> 0.0 <= r <= 1.0)
      ensures Health in attributeMap && attributeMap[Health].maxValue != attributeMap[Health].minValue ==>
                r * (attributeMap[Health].maxValue - attributeMap[Health].minValue)
                == attributeMap[Health].value - attributeMap[Health].minValue
    {
      GetAttributeNormalized(Health)
    }

    // -------------------------------------------------------------------------
    // The index and the regeneration state machine
    // -------------------------------------------------------------------------

    /** Empties the index and adds every list entry in order (last one wins). */
    method InitializeAttributeMap()
      modifies this`attributeMap
      ensures attributeMap == BuildMap(attributes)
      ensures Valid()
    {
      attributeMap := map[];
      for i := 0 to |attributes|
        invariant attributeMap == BuildMap(attributes[..i])
      {
        assert attributes[..i + 1][..i] == attributes[..i];
        attributeMap := attributeMap[attributes[i].tag := attributes[i]];
      }
      assert attributes[..|attributes|] == attributes;
      BuildMapKeys(attributes);
    }

    /** Starts the tag's timer when regeneration is on and the value is below the
        maximum (unless it already runs); removes the handle when regeneration is
        on and the value is at the maximum; otherwise changes nothing. */
    method CheckRegenStatus(tag: Tag)
      modifies this`regenTimers, this`timerCalls
      ensures regenTimers == RegenCheck(old(regenTimers), attributeMap, tag)
      ensures timerCalls == old(timerCalls) + RegenStarts(old(regenTimers), attributeMap, tag)
    {
      if tag in attributeMap {
        var a := attributeMap[tag];
        if a.useRegen {
          if a.value < a.maxValue {
            if tag !in regenTimers {
              // FindOrAdd: a new handle is not running
              regenTimers := regenTimers[tag := false];
            }
            if !regenTimers[tag] {
              regenTimers := regenTimers[tag := true];
              timerCalls := timerCalls + [StartRegen(tag)];
            }
          } else if tag in regenTimers {
            regenTimers := regenTimers - {tag};
          }
        }
      }
    }

    /** Walks the LIST (not the index) and starts a timer for every entry with
        regeneration on below its maximum whose handle is not running. */
    method StartRegenTimer()
      modifies this`regenTimers, this`timerCalls
      ensures regenTimers == StartRegenAll(old(regenTimers), attributes)
      ensures timerCalls == old(timerCalls) + StartRegenCalls(old(regenTimers), attributes)
    {
      for i := 0 to |attributes|
        invariant regenTimers == StartRegenAll(old(regenTimers), attributes[..i])
        invariant timerCalls == old(timerCalls) + StartRegenCalls(old(regenTimers), attributes[..i])
      {
        assert attributes[..i + 1][..i] == attributes[..i];
        var a := attributes[i];
        if a.useRegen && a.value < a.maxValue {
          if a.tag !in regenTimers {
            regenTimers := regenTimers[a.tag := false];
          }
          if !regenTimers[a.tag] {
            regenTimers := regenTimers[a.tag := true];
            timerCalls := timerCalls + [StartRegen(a.tag)];
          }
        }
      }
      assert attributes[..|attributes|] == attributes;
    }

    /** One regeneration tick over every handle in the timer table, visited in
        the table's order `order`: a found tag with regeneration on moves to
        value + regenValue clamped into its bounds; a change is broadcast, and a
        change that reaches the maximum clears the handle but keeps its entry. */
    method RegenerateAttributes(order: seq<Tag>)
      requires Valid()
      requires Enumerates(order, regenTimers.Keys)
      modifies this`attributeMap, this`events, this`regenTimers
      ensures Valid()
      ensures attributeMap == TickedMap(old(attributeMap), old(regenTimers).Keys)
      ensures regenTimers == TickedTimers(old(regenTimers), old(attributeMap), old(regenTimers).Keys)
      ensures events == old(events) + TickEvents(old(attributeMap), order)
    {
      EnumerationDone(order, regenTimers.Keys);
      assert order[..|order|] == order;
      TickInOrder(order);
    }

    /** The loop of RegenerateAttributes: ticks the handles' tags in `order`. */
    method TickInOrder(order: seq<Tag>)
      requires forall u :: u in attributeMap ==> attributeMap[u].tag == u
      requires Enumerates(order, regenTimers.Keys)
      modifies this`attributeMap, this`events, this`regenTimers
      ensures attributeMap == TickedMap(old(attributeMap), Visited(order, |order|))
      ensures regenTimers == TickedTimers(old(regenTimers), old(attributeMap), Visited(order, |order|))
      ensures events == old(events) + TickEvents(old(attributeMap), order[..|order|])
    {
      ghost var m0 := attributeMap;
      ghost var h0 := regenTimers;
      for i := 0 to |order|
        invariant attributeMap == TickedMap(m0, Visited(order, i))
        invariant regenTimers == TickedTimers(h0, m0, Visited(order, i))
        invariant events == old(events) + TickEvents(m0, order[..i])
      {
        EnumerationStep(order, h0.Keys, i);
        TickEventsStep(m0, order, i, old(events));
        TickOne(order[i], m0, h0, Visited(order, i));
      }
    }

    /** The body of RegenerateAttributes' loop: ticking one more handle's tag `t`
        extends the ticked set by t and broadcasts t's change, if any. */
    method TickOne(t: Tag, ghost m0: map<Tag, Attribute>, ghost h0: map<Tag, bool>, ghost ts: set<Tag>)
      requires t in h0 && t !in ts && (t in m0 ==> m0[t].tag == t)
      requires attributeMap == TickedMap(m0, ts) && regenTimers == TickedTimers(h0, m0, ts)
      modifies this`attributeMap, this`events, this`regenTimers
      ensures attributeMap == TickedMap(m0, ts + {t})
      ensures regenTimers == TickedTimers(h0, m0, ts + {t})
      ensures events == old(events) + TickEvent(m0, t)
    {
      TickStep(m0, h0, ts, t);
      if t in attributeMap && attributeMap[t].useRegen {
        var a := attributeMap[t];
        var newValue := Clamp(a.value + a.regenValue, a.minValue, a.maxValue);
        if a.value != newValue {
          attributeMap := attributeMap[t := a.(value := newValue)];
          events := events + [AttributeChanged(a.tag, newValue)];
          if newValue >= a.maxValue {
            if t in regenTimers {
              regenTimers := regenTimers[t := false];
            }
          }
        }
      }
    }

    // -------------------------------------------------------------------------
    // Value and bound mutation
    // -------------------------------------------------------------------------

    /** The effect of SetAttributeValueInternal(tag, input, op): nothing for an
        unknown tag; otherwise the clamped value is stored, the pre-change event
        (and, on a change, the change event) is broadcast, and on a change the
        regeneration status is re-checked. */
    twostate predicate SetValueEffect(tag: Tag, input: real, op: Operation)
      reads this
      ensures SetValueEffect(tag, input, op) ==>
                && attributeMap.Keys == old(attributeMap).Keys
                && (forall t :: t in attributeMap && t != tag ==> attributeMap[t] == old(attributeMap)[t])
                && (tag in attributeMap ==> attributeMap[tag] == old(attributeMap)[tag].(value := attributeMap[tag].value))
                && |old(events)| <= |events| && events[..|old(events)|] == old(events)
    {
      if tag !in old(attributeMap) then
        && attributeMap == old(attributeMap) && events == old(events)
        && regenTimers == old(regenTimers) && timerCalls == old(timerCalls)
      else
        var a := old(attributeMap)[tag];
        var b := CommitValue(a, input, op);
        var changed := b.value != a.value;
        && attributeMap == old(attributeMap)[tag := b]
        && events == old(events) + ValueEvents(tag, a, input, op)
        && regenTimers == (if changed then RegenCheck(old(regenTimers), attributeMap, tag) else old(regenTimers))
        && timerCalls == old(timerCalls) + (if changed then RegenStarts(old(regenTimers), attributeMap, tag) else [])
    }

    method SetAttributeValueInternal(tag: Tag, input: real, op: Operation)
      requires Valid()
      modifies this`attributeMap, this`events, this`regenTimers, this`timerCalls
      ensures Valid()
      ensures SetValueEffect(tag, input, op)
    {
      if tag in attributeMap {
        var a := attributeMap[tag];
        var proposed := ApplyOperation(a.value, input, op);
        events := events + [PreAttributeChanged(tag, proposed)];
        var committed := Clamp(proposed, a.minValue, a.maxValue);
        attributeMap := attributeMap[tag := a.(value := committed)];
        if a.value != committed {
          events := events + [AttributeChanged(tag, committed)];
          CheckRegenStatus(tag);
        }
        assert events == old(events) + ValueEvents(tag, a, input, op);
      }
    }

    /** The public value setter; the operation defaults to Override. */
    method SetAttributeValue(tag: Tag, input: real, op: Operation := DefaultOperation)
      requires Valid()
      modifies this`attributeMap, this`events, this`regenTimers, this`timerCalls
      ensures Valid()
      ensures SetValueEffect(tag, input, op)
    {
      SetAttributeValueInternal(tag, input, op);
    }

    method DecreaseAttributeValue(tag: Tag, amount: real)
      requires Valid()
      modifies this`attributeMap, this`events, this`regenTimers, this`timerCalls
      ensures Valid()
      ensures SetValueEffect(tag, amount, Subtract)
    {
      SetAttributeValueInternal(tag, amount, Subtract);
    }

    method IncreaseAttributeValue(tag: Tag, amount: real)
      requires Valid()
      modifies this`attributeMap, this`events, this`regenTimers, this`timerCalls
      ensures Valid()
      ensures SetValueEffect(tag, amount, Add)
    {
      SetAttributeValueInternal(tag, amount, Add);
    }

    /** The minimum setter: stores the proposal clamped into [0, max], leaves the
        value alone, and on a change broadcasts the new minimum and re-checks
        regeneration. The operation defaults to Override. */
    method SetAttributeMinValue(tag: Tag, input: real, op: Operation := DefaultOperation)
      requires Valid()
      modifies this`attributeMap, this`events, this`regenTimers, this`timerCalls
      ensures Valid()
      ensures tag !in old(attributeMap) ==> unchanged(this)
      ensures tag in old(attributeMap) ==>
                var a := old(attributeMap)[tag];
                var b := CommitMin(a, input, op);
                var changed := b.minValue != a.minValue;
                && attributeMap == old(attributeMap)[tag := b]
                && events == old(events) + (if changed then [AttributeChanged(tag, b.minValue)] else [])
                && regenTimers == (if changed then RegenCheck(old(regenTimers), attributeMap, tag) else old(regenTimers))
                && timerCalls == old(timerCalls) + (if changed then RegenStarts(old(regenTimers), attributeMap, tag) else [])
    {
      if tag in attributeMap {
        var a := attributeMap[tag];
        var newMin := Clamp(ApplyOperation(a.minValue, input, op), 0.0, a.maxValue);
        attributeMap := attributeMap[tag := a.(minValue := newMin)];
        if a.minValue != newMin {
          events := events + [AttributeChanged(tag, newMin)];
          CheckRegenStatus(tag);
        }
      }
    }

    /** The maximum setter: stores the proposal clamped into [min, FLT_MAX],
        leaves the value alone, and on a change broadcasts the new maximum and
        re-checks regeneration. The operation defaults to Override. */
    method SetAttributeMaxValue(tag: Tag, input: real, op: Operation := DefaultOperation)
      requires Valid()
      modifies this`attributeMap, this`events, this`regenTimers, this`timerCalls
      ensures Valid()
      ensures tag !in old(attributeMap) ==> unchanged(this)
      ensures tag in old(attributeMap) ==>
                var a := old(attributeMap)[tag];
                var b := CommitMax(a, input, op);
                var changed := b.maxValue != a.maxValue;
                && attributeMap == old(attributeMap)[tag := b]
                && events == old(events) + (if changed then [AttributeChanged(tag, b.maxValue)] else [])
                && regenTimers == (if changed then RegenCheck(old(regenTimers), attributeMap, tag) else old(regenTimers))
                && timerCalls == old(timerCalls) + (if changed then RegenStarts(old(regenTimers), attributeMap, tag) else [])
    {
      if tag in attributeMap {
        var a := attributeMap[tag];
        var newMax := Clamp(ApplyOperation(a.maxValue, input, op), a.minValue, FltMax);
        attributeMap := attributeMap[tag := a.(maxValue := newMax)];
        if a.maxValue != newMax {
          events := events + [AttributeChanged(tag, newMax)];
          CheckRegenStatus(tag);
        }
      }
    }

    /** Turns regeneration on or off for a registered tag and re-checks its
        status; turning it off leaves a running timer running. */
    method SetUseRegen(tag: Tag, useRegen: bool)
      requires Valid()
      modifies this`attributeMap, this`regenTimers, this`timerCalls
      ensures Valid()
      ensures tag !in old(attributeMap) ==> unchanged(this)
      ensures tag in old(attributeMap) ==>
                && attributeMap == old(attributeMap)[tag := old(attributeMap)[tag].(useRegen := useRegen)]
                && regenTimers == RegenCheck(old(regenTimers), attributeMap, tag)
                && timerCalls == old(timerCalls) + RegenStarts(old(regenTimers), attributeMap, tag)
      ensures !useRegen ==> regenTimers == old(regenTimers) && timerCalls == old(timerCalls)
    {
      if tag in attributeMap {
        attributeMap := attributeMap[tag := attributeMap[tag].(useRegen := useRegen)];
        CheckRegenStatus(tag);
      }
    }

    /** Broadcasts a threshold event when a registered value is at or below its minimum. */
    method CheckThresholds(tag: Tag)
      modifies this`events
      ensures events == old(events) +
                (if tag in attributeMap && attributeMap[tag].value <= attributeMap[tag].minValue
                 then [ThresholdReached(tag, attributeMap[tag].value)] else [])
    {
      if tag in attributeMap {
        var a := attributeMap[tag];
        if a.value <= a.minValue {
          events := events + [ThresholdReached(tag, a.value)];
        }
      }
    }

    /** Subtracts from Health, then broadcasts Death whenever the Health value
        read back is at or below zero -- also when Health is not registered,
        since the read then gives 0. */
    method DecreaseHealth(amount: real)
      requires Valid()
      modifies this`attributeMap, this`events, this`regenTimers, this`timerCalls
      ensures Valid()
      ensures Health !in old(attributeMap) ==>
                && attributeMap == old(attributeMap) && regenTimers == old(regenTimers)
                && timerCalls == old(timerCalls) && events == old(events) + [Death]
      ensures Health in old(attributeMap) ==>
                var a := old(attributeMap)[Health];
                var b := CommitValue(a, amount, Subtract);
                var changed := b.value != a.value;
                && attributeMap == old(attributeMap)[Health := b]
                && events == old(events) + ValueEvents(Health, a, amount, Subtract)
                                         + (if b.value <= 0.0 then [Death] else [])
                && regenTimers == (if changed then RegenCheck(old(regenTimers), attributeMap, Health) else old(regenTimers))
                && timerCalls == old(timerCalls) + (if changed then RegenStarts(old(regenTimers), attributeMap, Health) else [])
    {
      SetAttributeValue(Health, amount, Subtract);
      var cachedHealth := GetAttributeValue(Health);
      if cachedHealth <= 0.0 {
        events := events + [Death];
      }
    }

    /** Adds to Health; a no-op when Health is not registered. */
    method IncreaseHealth(amount: real)
      requires Valid()
      modifies this`attributeMap, this`events, this`regenTimers, this`timerCalls
      ensures Valid()
      ensures SetValueEffect(Health, amount, Add)
    {
      SetAttributeValue(Health, amount, Add);
    }

    // -------------------------------------------------------------------------
    // Modifiers: they write the index directly, bypassing the value setter
    // -------------------------------------------------------------------------

    /** For a registered tag: adds the modifier's value clamped into the bounds,
        appends the modifier, always broadcasts the value, and schedules a revert
        when the duration is positive. No pre-change event, no regeneration check. */
    method ApplyModifier(modifier: Modifier)
      requires Valid()
      modifies this`attributeMap, this`activeModifiers, this`events, this`timerCalls
      ensures Valid()
      ensures modifier.tag !in old(attributeMap) ==> unchanged(this)
      ensures modifier.tag in old(attributeMap) ==>
                var b := WithModifier(old(attributeMap)[modifier.tag], modifier.value);
                && attributeMap == old(attributeMap)[modifier.tag := b]
                && activeModifiers == old(activeModifiers) + [modifier]
                && events == old(events) + [AttributeChanged(modifier.tag, b.value)]
                && timerCalls == old(timerCalls) + (if SchedulesRevert(modifier) then [ScheduleRevert(modifier)] else [])
    {
      if IsValidAttribute(modifier.tag) {
        var a := attributeMap[modifier.tag];
        var newValue := Clamp(a.value + modifier.value, a.minValue, a.maxValue);
        attributeMap := attributeMap[modifier.tag := a.(value := newValue)];
        activeModifiers := activeModifiers + [modifier];
        events := events + [AttributeChanged(modifier.tag, newValue)];
        if modifier.duration > 0.0 {
          timerCalls := timerCalls + [ScheduleRevert(modifier)];
        }
      }
    }

    /** For a registered tag: subtracts the amount clamped into the bounds,
        drops EVERY active modifier matching (tag, amount), and always broadcasts
        the value. This is also what a scheduled revert runs when it expires. */
    method RemoveModifier(tag: Tag, amount: real)
      requires Valid()
      modifies this`attributeMap, this`activeModifiers, this`events
      ensures Valid()
      ensures tag !in old(attributeMap) ==> unchanged(this)
      ensures tag in old(attributeMap) ==>
                var b := WithoutModifier(old(attributeMap)[tag], amount);
                && attributeMap == old(attributeMap)[tag := b]
                && activeModifiers == RemoveMatching(old(activeModifiers), tag, amount)
                && events == old(events) + [AttributeChanged(tag, b.value)]
    {
      if IsValidAttribute(tag) {
        var a := attributeMap[tag];
        var newValue := Clamp(a.value - amount, a.minValue, a.maxValue);
        attributeMap := attributeMap[tag := a.(value := newValue)];
        activeModifiers := RemoveMatching(activeModifiers, tag, amount);
        events := events + [AttributeChanged(tag, newValue)];
      }
    }

    // -------------------------------------------------------------------------
    // The registry
    // -------------------------------------------------------------------------

    /** For a new tag: appends the definition to the list and rebuilds the index
        from the list -- which replaces every earlier edit of the index by the
        list's copy -- then broadcasts changed and added and checks regeneration.
        An existing tag is a no-op. */
    method AddAttribute(newAttribute: Attribute)
      requires Valid()
      modifies this`attributes, this`attributeMap, this`events, this`regenTimers, this`timerCalls
      ensures Valid()
      ensures newAttribute.tag in old(attributeMap) ==> unchanged(this)
      ensures newAttribute.tag !in old(attributeMap) ==>
                && attributes == old(attributes) + [newAttribute]
                && attributeMap == BuildMap(old(attributes))[newAttribute.tag := newAttribute]
                && events == old(events) + [AttributeChanged(newAttribute.tag, newAttribute.value),
                                            AttributeAdded(newAttribute.tag, newAttribute.value)]
                && regenTimers == RegenCheck(old(regenTimers), attributeMap, newAttribute.tag)
                && timerCalls == old(timerCalls) + RegenStarts(old(regenTimers), attributeMap, newAttribute.tag)
    {
      if !IsValidAttribute(newAttribute.tag) {
        BuildMapAppend(attributes, newAttribute);
        attributes := attributes + [newAttribute];
        InitializeAttributeMap();
        events := events + [AttributeChanged(newAttribute.tag, newAttribute.value),
                            AttributeAdded(newAttribute.tag, newAttribute.value)];
        CheckRegenStatus(newAttribute.tag);
      }
    }

    /** For a registered tag: deletes every list entry with that tag, rebuilds
        the index from the list, and broadcasts a change to 0 and the removal.
        The tag's timer is not touched. An unknown tag is a no-op. */
    method RemoveAttribute(tag: Tag)
      requires Valid()
      modifies this`attributes, this`attributeMap, this`events
      ensures Valid()
      ensures tag !in old(attributeMap) ==> unchanged(this)
      ensures tag in old(attributeMap) ==>
                && attributes == RemoveTag(old(attributes), tag)
                && attributeMap == BuildMap(attributes)
                && tag !in attributeMap
                && attributeMap.Keys == old(attributeMap).Keys - {tag}
                && events == old(events) + [AttributeChanged(tag, 0.0), AttributeRemoved(tag)]
    {
      if IsValidAttribute(tag) {
        RemoveTagTags(attributes, tag);
        attributes := RemoveTag(attributes, tag);
        InitializeAttributeMap();
        events := events + [AttributeChanged(tag, 0.0), AttributeRemoved(tag)];
      }
    }

    /** Broadcasts each list entry's value and checks its regeneration, in list order. */
    method AnnounceAll()
      modifies this`events, this`regenTimers, this`timerCalls
      ensures events == old(events) + ChangedEvents(attributes)
      ensures regenTimers == RegenCheckAll(old(regenTimers), attributeMap, attributes)
      ensures timerCalls == old(timerCalls) + RegenStartsAll(old(regenTimers), attributeMap, attributes)
    {
      for i := 0 to |attributes|
        invariant events == old(events) + ChangedEvents(attributes[..i])
        invariant regenTimers == RegenCheckAll(old(regenTimers), attributeMap, attributes[..i])
        invariant timerCalls == old(timerCalls) + RegenStartsAll(old(regenTimers), attributeMap, attributes[..i])
      {
        AnnounceStep(old(regenTimers), attributeMap, attributes, i, old(events), old(timerCalls));
        events := events + [AttributeChanged(attributes[i].tag, attributes[i].value)];
        CheckRegenStatus(attributes[i].tag);
      }
      assert attributes[..|attributes|] == attributes;
    }

    /** With an assigned asset: its list becomes both the backup and the live
        list, the index is rebuilt, every entry is broadcast and checked for
        regeneration (existing timers are kept), then the initialized event
        fires. Without an asset nothing happens. */
    method LoadAttributesFromDataAsset(asset: Option<AttributeDataAsset>)
      requires Valid()
      modifies this
      ensures Valid()
      ensures asset.None? ==> unchanged(this)
      ensures asset.Some? ==>
                && initialAttributesBackup == asset.value.attributes
                && attributes == asset.value.attributes
                && attributeMap == BuildMap(attributes)
                && activeModifiers == old(activeModifiers)
                && events == old(events) + ChangedEvents(attributes) + [AttributesInitialized]
                && regenTimers == RegenCheckAll(old(regenTimers), attributeMap, attributes)
                && timerCalls == old(timerCalls) + RegenStartsAll(old(regenTimers), attributeMap, attributes)
    {
      if asset.Some? {
        initialAttributesBackup := asset.value.attributes;
        attributes := asset.value.attributes;
        InitializeAttributeMap();
        AnnounceAll();
        events := events + [AttributesInitialized];
      }
    }

    /** Game start: loads the data asset, then starts the timers of the list.
        Afterwards every list entry that wants regeneration has a running timer. */
    method BeginPlay(asset: Option<AttributeDataAsset>)
      requires Valid()
      modifies this
      ensures Valid()
      ensures asset.Some? ==>
                && attributes == asset.value.attributes
                && attributeMap == BuildMap(attributes)
                && events == old(events) + ChangedEvents(attributes) + [AttributesInitialized]
      ensures asset.Some? ==>
                && initialAttributesBackup == asset.value.attributes
                && regenTimers == StartRegenAll(RegenCheckAll(old(regenTimers), attributeMap, attributes), attributes)
                && timerCalls == old(timerCalls) + RegenStartsAll(old(regenTimers), attributeMap, attributes)
                                 + StartRegenCalls(RegenCheckAll(old(regenTimers), attributeMap, attributes), attributes)
      ensures asset.None? ==>
                && attributes == old(attributes) && attributeMap == old(attributeMap) && events == old(events)
                && initialAttributesBackup == old(initialAttributesBackup)
                && regenTimers == StartRegenAll(old(regenTimers), attributes)
                && timerCalls == old(timerCalls) + StartRegenCalls(old(regenTimers), attributes)
      ensures activeModifiers == old(activeModifiers)
      ensures forall i :: 0 <= i < |attributes| && EntryWantsRegen(attributes[i]) ==> IsActive(regenTimers, attributes[i].tag)
    {
      LoadAttributesFromDataAsset(asset);
      ghost var loaded := regenTimers;
      ghost var loadedCalls := timerCalls;
      StartRegenTimer();
      assert timerCalls == loadedCalls + StartRegenCalls(loaded, attributes);
      StartRegenAllActivates(loaded, attributes);
    }

    /** Clears and forgets every regeneration timer, restores the list from the
        backup, rebuilds the index, then broadcasts and checks each entry.
        Active modifiers and their scheduled reverts are kept. */
    method ResetAllAttributes()
      modifies this`attributes, this`attributeMap, this`events, this`regenTimers, this`timerCalls
      ensures Valid()
      ensures attributes == initialAttributesBackup
      ensures attributeMap == BuildMap(initialAttributesBackup)
      ensures events == old(events) + ChangedEvents(attributes)
      ensures regenTimers == RegenCheckAll(map[], attributeMap, attributes)
      ensures timerCalls == old(timerCalls) + RegenStartsAll(map[], attributeMap, attributes)
    {
      regenTimers := map[];
      attributes := initialAttributesBackup;
      InitializeAttributeMap();
      AnnounceAll();
    }

    // -------------------------------------------------------------------------
    // Persistence
    // -------------------------------------------------------------------------

    /** The body of LoadAttributes' loop: merging one more indexed tag `t`
        extends the merged set by t and broadcasts t's saved value, if any. */
    method MergeOne(t: Tag, saved: map<Tag, real>, ghost m0: map<Tag, Attribute>, ghost ts: set<Tag>)
      requires t in m0 && t !in ts
      requires attributeMap == MergedOn(m0, saved, ts)
      modifies this`attributeMap, this`events
      ensures attributeMap == MergedOn(m0, saved, ts + {t})
      ensures events == old(events) + MergeEvent(saved, t)
    {
      MergeStep(m0, saved, ts, t);
      if t in saved {
        attributeMap := attributeMap[t := attributeMap[t].(value := saved[t])];
        events := events + [AttributeChanged(t, saved[t])];
      }
    }

    /** The loop of LoadAttributes: merges the indexed tags in `order`. */
    method MergeInOrder(saved: map<Tag, real>, order: seq<Tag>)
      requires Enumerates(order, attributeMap.Keys)
      modifies this`attributeMap, this`events
      ensures attributeMap == MergedOn(old(attributeMap), saved, Visited(order, |order|))
      ensures events == old(events) + MergeEvents(saved, order[..|order|])
    {
      ghost var m0 := attributeMap;
      for i := 0 to |order|
        invariant attributeMap == MergedOn(m0, saved, Visited(order, i))
        invariant events == old(events) + MergeEvents(saved, order[..i])
      {
        EnumerationStep(order, m0.Keys, i);
        MergeEventsStep(saved, order, i, old(events));
        MergeOne(order[i], saved, m0, Visited(order, i));
      }
    }

    /** The payload SaveAttributes writes: every indexed tag with its value. */
    method SaveAttributes() returns (payload: map<Tag, real>)
      ensures payload.Keys == attributeMap.Keys
      ensures forall t :: t in attributeMap ==> payload[t] == attributeMap[t].value
    {
      payload := map[];
      var remaining := attributeMap.Keys;
      while remaining != {}
        invariant remaining <= attributeMap.Keys
        invariant payload.Keys == attributeMap.Keys - remaining
        invariant forall t :: t in payload ==> payload[t] == attributeMap[t].value
        decreases remaining
      {
        var t :| t in remaining;
        payload := payload[t := attributeMap[t].value];
        remaining := remaining - {t};
      }
    }

    /** With a stored payload: every indexed tag that the payload holds takes the
        saved value unclamped and is broadcast, in the index's order `order`;
        other tags are untouched. Without one: nothing changes, and a fresh
        payload of the current values is returned to be written to the slot. */
    method LoadAttributes(stored: Option<map<Tag, real>>, order: seq<Tag>) returns (created: Option<map<Tag, real>>)
      requires Valid()
      requires Enumerates(order, attributeMap.Keys)
      modifies this`attributeMap, this`events
      ensures Valid()
      ensures stored.None? ==> unchanged(this) && created == Some(Snapshot(attributeMap))
      ensures stored.Some? ==>
                && created == None
                && attributeMap == Merge(old(attributeMap), stored.value)
                && events == old(events) + MergeEvents(stored.value, order)
    {
      if stored.Some? {
        EnumerationDone(order, attributeMap.Keys);
        assert order[..|order|] == order;
        MergeInOrder(stored.value, order);
        created := None;
      } else {
        var payload := SaveAttributes();
        assert payload == Snapshot(attributeMap);
        created := Some(payload);
      }
    }
  }
}
