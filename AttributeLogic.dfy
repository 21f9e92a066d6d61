// The pure logic of the attribute component (Private/AttributeComponent.cpp):
// the clamp and the arithmetic switch, what each mutator commits to one
// attribute, the map rebuild, the regeneration state machine, the modifier
// list filter and the snapshot/merge of persistence. The component class in
// AttributeComponent.dfy is specified by these functions.

module AttributeLogic {
  import opened AttributeData
  import opened AttributeTypes

  // ---------------------------------------------------------------------------
  // Clamp and the arithmetic switch
  // ---------------------------------------------------------------------------

  /** FMath::Clamp: `X < Min ? Min : (X < Max ? X : Max)`. */
  function Clamp(x: real, lo: real, hi: real): (r: real)
    ensures lo <= hi ==> lo <= r <= hi
    ensures lo <= x <= hi ==> r == x
    ensures x < lo ==> r == lo
    ensures lo <= hi && hi < x ==> r == hi
  {
    if x < lo then lo else if x < hi then x else hi
  }

  /** The proposed value of the switch shared by the three setters;
      dividing by zero keeps the old value. */
  function ApplyOperation(current: real, input: real, op: Operation): (r: real)
    ensures op == Override ==> r == input
    ensures op == Divide && input == 0.0 ==> r == current
  {
    match op
    case Add => current + input
    case Subtract => current - input
    case Multiply => current * input
    case Divide => if input != 0.0 then current / input else current
    case Override => input
  }

  /** Add and Subtract undo each other, and so do Multiply and Divide by a
      non-zero amount; Divide by zero changes nothing. */
  lemma OperationInverses(x: real, d: real)
    ensures ApplyOperation(ApplyOperation(x, d, Add), d, Subtract) == x
    ensures ApplyOperation(ApplyOperation(x, d, Subtract), d, Add) == x
    ensures d != 0.0 ==> ApplyOperation(ApplyOperation(x, d, Multiply), d, Divide) == x
    ensures ApplyOperation(x, 0.0, Divide) == x
  {
  }

  // ---------------------------------------------------------------------------
  // What the setters commit to a found attribute
  // ---------------------------------------------------------------------------

  /** SetAttributeValueInternal: the proposed value clamped into [min, max];
      no other field changes. */
  function CommitValue(a: Attribute, input: real, op: Operation): (r: Attribute)
    ensures r == a.(value := r.value)
    ensures a.minValue <= a.maxValue ==> a.minValue <= r.value <= a.maxValue
    ensures a.minValue <= ApplyOperation(a.value, input, op) <= a.maxValue
            ==> r.value == ApplyOperation(a.value, input, op)
  {
    a.(value := Clamp(ApplyOperation(a.value, input, op), a.minValue, a.maxValue))
  }

  /** SetAttributeMinValue: the proposed minimum clamped into [0, max];
      the current value is not re-clamped. */
  function CommitMin(a: Attribute, input: real, op: Operation): (r: Attribute)
    ensures r == a.(minValue := r.minValue)
    ensures 0.0 <= a.maxValue ==> 0.0 <= r.minValue <= r.maxValue
  {
    a.(minValue := Clamp(ApplyOperation(a.minValue, input, op), 0.0, a.maxValue))
  }

  /** SetAttributeMaxValue: the proposed maximum clamped into [min, FLT_MAX];
      the current value is not re-clamped. */
  function CommitMax(a: Attribute, input: real, op: Operation): (r: Attribute)
    ensures r == a.(maxValue := r.maxValue)
    ensures a.minValue <= FltMax ==> r.minValue <= r.maxValue <= FltMax
  {
    a.(maxValue := Clamp(ApplyOperation(a.maxValue, input, op), a.minValue, FltMax))
  }

  /** Bounds that the two bound setters keep: 0 <= min <= max <= FLT_MAX. */
  predicate BoundsOrdered(a: Attribute)
  {
    0.0 <= a.minValue <= a.maxValue <= FltMax
  }

  /** Starting from ordered bounds, every value, minimum or maximum update
      leaves the bounds ordered, and a value update leaves the value inside them. */
  lemma SettersKeepBoundsOrdered(a: Attribute, input: real, op: Operation)
    requires BoundsOrdered(a)
    ensures BoundsOrdered(CommitMin(a, input, op))
    ensures BoundsOrdered(CommitMax(a, input, op))
    ensures BoundsOrdered(CommitValue(a, input, op))
    ensures InRange(CommitValue(a, input, op))
  {
  }

  /** The bound setters do not re-clamp the value: lowering the maximum of an
      in-range attribute below its value leaves the value above the new maximum,
      and raising the minimum above it leaves the value below the new minimum. */
  lemma BoundSettersCanStrandValue()
    ensures var a := NewAttribute(Health, 50.0, 0.0, 100.0);
            InRange(a) && CommitMax(a, 20.0, Override).value > CommitMax(a, 20.0, Override).maxValue
    ensures var a := NewAttribute(Health, 50.0, 0.0, 100.0);
            CommitMin(a, 80.0, Override).value < CommitMin(a, 80.0, Override).minValue
  {
  }

  /** Repeating the same Override commits the same value, so the second call
      changes nothing and therefore broadcasts no change. */
  lemma OverrideIsIdempotent(a: Attribute, x: real)
    ensures CommitValue(CommitValue(a, x, Override), x, Override) == CommitValue(a, x, Override)
  {
  }

  /** Dividing by zero proposes the old value; the commit then only clamps it. */
  lemma DivideByZeroKeepsInRangeValue(a: Attribute)
    requires a.minValue <= a.value <= a.maxValue
    ensures CommitValue(a, 0.0, Divide) == a
  {
  }

  /** The broadcasts of SetAttributeValueInternal on a found attribute: always
      the pre-change event with the unclamped proposal, then a change event with
      the committed value only when it differs from the old one. */
  function ValueEvents(tag: Tag, a: Attribute, input: real, op: Operation): (r: seq<Event>)
    ensures |r| >= 1 && r[0] == PreAttributeChanged(tag, ApplyOperation(a.value, input, op))
    ensures |r| == 2 <==> CommitValue(a, input, op).value != a.value
    ensures |r| == 2 ==> r[1] == AttributeChanged(tag, CommitValue(a, input, op).value)
  {
    var b := CommitValue(a, input, op);
    [PreAttributeChanged(tag, ApplyOperation(a.value, input, op))]
    + (if b.value != a.value then [AttributeChanged(tag, b.value)] else [])
  }

  /** Repeating the same Override broadcasts a second pre-change event but no
      second change event. */
  lemma OverrideTwiceChangesOnce(tag: Tag, a: Attribute, x: real)
    ensures ValueEvents(tag, CommitValue(a, x, Override), x, Override)
            == [PreAttributeChanged(tag, x)]
  {
    OverrideIsIdempotent(a, x);
  }

  /** The normalised position of v between distinct bounds lo and hi scales back
      to v - lo, and lies in [0, 1] when v is inside the bounds. */
  lemma NormalizedInUnitRange(v: real, lo: real, hi: real)
    requires hi != lo
    ensures ((v - lo) / (hi - lo)) * (hi - lo) == v - lo
    ensures lo <= v <= hi ==> 0.0 <= (v - lo) / (hi - lo) <= 1.0
  {
    var d := hi - lo;
    var r := (v - lo) / d;
    assert r * d == v - lo;
    if lo <= v <= hi {
      assert d > 0.0;
      assert r * d >= 0.0;
      FractionAtMostOne(r, d, v - lo);
    }
  }

  /** A factor that scales a positive d to at most d is at most one. */
  lemma FractionAtMostOne(r: real, d: real, x: real)
    requires d > 0.0 && r * d == x && x <= d
    ensures r <= 1.0
  {
    assert (r - 1.0) * d <= 0.0;
  }

  // ---------------------------------------------------------------------------
  // The map rebuild (InitializeAttributeMap)
  // ---------------------------------------------------------------------------

  /** The map obtained by adding the list's entries in order: a later entry
      with the same tag replaces an earlier one. */
  function BuildMap(s: seq<Attribute>): (r: map<Tag, Attribute>)
    ensures forall i :: 0 <= i < |s| ==> s[i].tag in r
    ensures forall t :: t in r ==> r[t].tag == t
  {
    if s == [] then map[]
    else
      var init := s[..|s| - 1];
      assert forall i :: 0 <= i < |init| ==> init[i] == s[i];
      BuildMap(init)[s[|s| - 1].tag := s[|s| - 1]]
  }

  /** The rebuilt map's keys are exactly the list's tags. */
  lemma {:induction false} BuildMapKeys(s: seq<Attribute>)
    ensures BuildMap(s).Keys == Tags(s)
  {
    if s != [] {
      var init := s[..|s| - 1];
      BuildMapKeys(init);
      assert Tags(s) == Tags(init) + {s[|s| - 1].tag} by {
        forall t | t in Tags(s) ensures t in Tags(init) + {s[|s| - 1].tag} {
          var i :| 0 <= i < |s| && s[i].tag == t;
          if i < |s| - 1 { assert init[i] == s[i]; }
        }
        forall t | t in Tags(init) ensures t in Tags(s) {
          var i :| 0 <= i < |init| && init[i].tag == t;
          assert s[i] == init[i];
        }
      }
    }
  }

  /** The last entry for a tag wins. */
  lemma {:induction false} BuildMapLastWins(s: seq<Attribute>, i: nat)
    requires i < |s|
    requires forall j :: i < j < |s| ==> s[j].tag != s[i].tag
    ensures s[i].tag in BuildMap(s) && BuildMap(s)[s[i].tag] == s[i]
  {
    if i < |s| - 1 {
      var init := s[..|s| - 1];
      assert init[i] == s[i];
      BuildMapLastWins(init, i);
    }
  }

  /** Appending a definition adds exactly that entry, replacing any earlier
      entry with the same tag. */
  lemma BuildMapAppend(s: seq<Attribute>, a: Attribute)
    ensures BuildMap(s + [a]) == BuildMap(s)[a.tag := a]
  {
    assert (s + [a])[..|s|] == s;
  }

  // ---------------------------------------------------------------------------
  // RemoveAll on the definition list and on the modifier list
  // ---------------------------------------------------------------------------

  /** The list without every entry carrying `tag`, in the original order. */
  function RemoveTag(s: seq<Attribute>, tag: Tag): (r: seq<Attribute>)
    ensures |r| <= |s|
    ensures forall a :: a in r <==> a in s && a.tag != tag
  {
    if s == [] then []
    else
      var rest := RemoveTag(s[1..], tag);
      assert forall a :: a in s[1..] ==> a in s;
      assert forall a :: a in s ==> a == s[0] || a in s[1..];
      if s[0].tag == tag then rest else [s[0]] + rest
  }

  /** Removing a tag from the list removes exactly that tag from its tag set. */
  lemma RemoveTagTags(s: seq<Attribute>, tag: Tag)
    ensures Tags(RemoveTag(s, tag)) == Tags(s) - {tag}
  {
    var r := RemoveTag(s, tag);
    forall t | t in Tags(r) ensures t in Tags(s) - {tag} {
      var i :| 0 <= i < |r| && r[i].tag == t;
      assert r[i] in r;
    }
    forall t | t in Tags(s) - {tag} ensures t in Tags(r) {
      var i :| 0 <= i < |s| && s[i].tag == t;
      assert s[i] in s;
      var j :| 0 <= j < |r| && r[j] == s[i];
    }
  }

  /** The modifier matches a (tag, value) pair exactly. */
  predicate Matches(m: Modifier, tag: Tag, value: real)
  {
    m.tag == tag && m.value == value
  }

  /** The modifier list without EVERY entry that matches (tag, value), in order. */
  function RemoveMatching(mods: seq<Modifier>, tag: Tag, value: real): (r: seq<Modifier>)
    ensures |r| <= |mods|
    ensures forall m :: m in r <==> m in mods && !Matches(m, tag, value)
  {
    if mods == [] then []
    else
      var rest := RemoveMatching(mods[1..], tag, value);
      assert forall m :: m in mods[1..] ==> m in mods;
      assert forall m :: m in mods ==> m == mods[0] || m in mods[1..];
      if Matches(mods[0], tag, value) then rest else [mods[0]] + rest
  }

  /** Filtering keeps the relative order: removing nothing is the identity, and
      filtering distributes over concatenation. */
  lemma {:induction false} RemoveMatchingAppend(a: seq<Modifier>, b: seq<Modifier>, tag: Tag, value: real)
    ensures RemoveMatching(a + b, tag, value) == RemoveMatching(a, tag, value) + RemoveMatching(b, tag, value)
  {
    if a == [] {
      assert a + b == b;
    } else {
      assert (a + b)[0] == a[0];
      assert (a + b)[1..] == a[1..] + b;
      RemoveMatchingAppend(a[1..], b, tag, value);
    }
  }

  /** RemoveAll on the attribute list is an in-order filter: it distributes over
      concatenation, and on a single entry RemoveTag's own contract leaves only
      the entry itself or nothing, so survivors keep their order and repeats. */
  lemma {:induction false} RemoveTagAppend(a: seq<Attribute>, b: seq<Attribute>, tag: Tag)
    ensures RemoveTag(a + b, tag) == RemoveTag(a, tag) + RemoveTag(b, tag)
  {
    if a == [] {
      assert a + b == b;
    } else {
      assert (a + b)[0] == a[0];
      assert (a + b)[1..] == a[1..] + b;
      RemoveTagAppend(a[1..], b, tag);
    }
  }

  /** Two identical modifiers are both removed by one call. */
  lemma RemoveMatchingTakesDuplicates(m: Modifier)
    ensures RemoveMatching([m, m], m.tag, m.value) == []
  {
  }

  // ---------------------------------------------------------------------------
  // Modifiers: the clamped add and subtract
  // ---------------------------------------------------------------------------

  /** ApplyModifier on a found attribute: value + delta clamped into [min, max]. */
  function WithModifier(a: Attribute, delta: real): (r: Attribute)
    ensures r == a.(value := r.value)
    ensures a.minValue <= a.maxValue ==> a.minValue <= r.value <= a.maxValue
  {
    a.(value := Clamp(a.value + delta, a.minValue, a.maxValue))
  }

  /** RemoveModifier on a found attribute: value - amount clamped into [min, max]. */
  function WithoutModifier(a: Attribute, amount: real): (r: Attribute)
    ensures r == a.(value := r.value)
    ensures a.minValue <= a.maxValue ==> a.minValue <= r.value <= a.maxValue
  {
    a.(value := Clamp(a.value - amount, a.minValue, a.maxValue))
  }

  /** Applying then removing a modifier restores the attribute when neither step clamped. */
  lemma ApplyThenRemoveRestores(a: Attribute, delta: real)
    requires a.minValue <= a.value <= a.maxValue
    requires a.minValue <= a.value + delta <= a.maxValue
    ensures WithoutModifier(WithModifier(a, delta), delta) == a
  {
  }

  /** A clamped application is not undone: +15 on a full attribute is lost,
      and the revert then lowers the value below where it started. A -15
      modifier on a full attribute is reverted exactly. */
  lemma ClampedModifierIsNotRestored()
    ensures var a := NewAttribute(Health, 100.0, 0.0, 100.0);
            WithModifier(a, 15.0).value == 100.0 &&
            WithoutModifier(WithModifier(a, 15.0), 15.0).value == 85.0
    ensures var a := NewAttribute(Health, 100.0, 0.0, 100.0);
            WithModifier(a, -15.0).value == 85.0 &&
            WithoutModifier(WithModifier(a, -15.0), -15.0).value == 100.0
  {
  }

  // ---------------------------------------------------------------------------
  // The regeneration state machine (CheckRegenStatus)
  // ---------------------------------------------------------------------------

  /** The tag's timer handle exists and is running. */
  predicate IsActive(handles: map<Tag, bool>, tag: Tag)
  {
    tag in handles && handles[tag]
  }

  /** The found attribute wants regeneration and is below its maximum. */
  predicate WantsRegen(m: map<Tag, Attribute>, tag: Tag)
  {
    tag in m && m[tag].useRegen && m[tag].value < m[tag].maxValue
  }

  /** The found attribute has regeneration on and is at or above its maximum. */
  predicate RegenDone(m: map<Tag, Attribute>, tag: Tag)
  {
    tag in m && m[tag].useRegen && m[tag].value >= m[tag].maxValue
  }

  /** The timer table after CheckRegenStatus(tag). */
  function RegenCheck(handles: map<Tag, bool>, m: map<Tag, Attribute>, tag: Tag): (r: map<Tag, bool>)
    ensures WantsRegen(m, tag) ==> IsActive(r, tag)
    ensures WantsRegen(m, tag) && IsActive(handles, tag) ==> r == handles
    ensures RegenDone(m, tag) ==> tag !in r
    ensures !WantsRegen(m, tag) && !RegenDone(m, tag) ==> r == handles
    ensures r - {tag} == handles - {tag}
  {
    if WantsRegen(m, tag) then handles[tag := true]
    else if RegenDone(m, tag) then handles - {tag}
    else handles
  }

  /** The timer started by CheckRegenStatus(tag): one, exactly when regeneration
      is wanted and the tag's timer is not already running. */
  function RegenStarts(handles: map<Tag, bool>, m: map<Tag, Attribute>, tag: Tag): (r: seq<TimerCall>)
    ensures r == [] || r == [StartRegen(tag)]
    ensures r != [] <==> WantsRegen(m, tag) && !IsActive(handles, tag)
  {
    if WantsRegen(m, tag) && !IsActive(handles, tag) then [StartRegen(tag)] else []
  }

  /** Checking the same tag twice against the same attributes changes nothing
      the second time and starts no second timer. */
  lemma RegenCheckIdempotent(handles: map<Tag, bool>, m: map<Tag, Attribute>, tag: Tag)
    ensures RegenCheck(RegenCheck(handles, m, tag), m, tag) == RegenCheck(handles, m, tag)
    ensures RegenStarts(RegenCheck(handles, m, tag), m, tag) == []
  {
  }

  /** CheckRegenStatus run for each entry of a list, in order. */
  function RegenCheckAll(handles: map<Tag, bool>, m: map<Tag, Attribute>, s: seq<Attribute>): (r: map<Tag, bool>)
    ensures forall t :: t in r && (t !in handles || r[t] != handles[t]) ==> r[t]
    ensures forall t :: t in handles && t !in r ==> RegenDone(m, t)
  {
    if s == [] then handles
    else RegenCheck(RegenCheckAll(handles, m, s[..|s| - 1]), m, s[|s| - 1].tag)
  }

  /** The timers started by that sequence of checks, in order. */
  function RegenStartsAll(handles: map<Tag, bool>, m: map<Tag, Attribute>, s: seq<Attribute>): (r: seq<TimerCall>)
    ensures |r| <= |s|
    ensures forall i :: 0 <= i < |r| ==> r[i].StartRegen? && WantsRegen(m, r[i].tag)
  {
    if s == [] then []
    else RegenStartsAll(handles, m, s[..|s| - 1])
         + RegenStarts(RegenCheckAll(handles, m, s[..|s| - 1]), m, s[|s| - 1].tag)
  }

  /** After checking every tag of a list, each listed tag is settled by the
      attribute alone -- running if it wants regeneration, absent if it is full --
      and every other tag keeps its old entry. */
  lemma {:induction false} RegenCheckAllSettles(handles: map<Tag, bool>, m: map<Tag, Attribute>,
                                                s: seq<Attribute>, t: Tag)
    ensures t in Tags(s) && WantsRegen(m, t) ==> IsActive(RegenCheckAll(handles, m, s), t)
    ensures t in Tags(s) && RegenDone(m, t) ==> t !in RegenCheckAll(handles, m, s)
    ensures t !in Tags(s) || (!WantsRegen(m, t) && !RegenDone(m, t)) ==>
              (t in RegenCheckAll(handles, m, s) <==> t in handles) &&
              (t in handles ==> RegenCheckAll(handles, m, s)[t] == handles[t])
  {
    if s != [] {
      var init := s[..|s| - 1];
      var last := s[|s| - 1].tag;
      var prev := RegenCheckAll(handles, m, init);
      RegenCheckAllSettles(handles, m, init, t);
      assert Tags(s) == Tags(init) + {last} by {
        forall u | u in Tags(s) ensures u in Tags(init) + {last} {
          var i :| 0 <= i < |s| && s[i].tag == u;
          if i < |s| - 1 { assert init[i] == s[i]; }
        }
        forall u | u in Tags(init) ensures u in Tags(s) {
          var i :| 0 <= i < |init| && init[i].tag == u;
          assert s[i] == init[i];
        }
      }
      if t != last {
        assert (t in RegenCheck(prev, m, last) <==> t in prev) by {
          assert RegenCheck(prev, m, last) - {last} == prev - {last};
          assert t in RegenCheck(prev, m, last) <==> t in RegenCheck(prev, m, last) - {last};
          assert t in prev <==> t in prev - {last};
        }
        if t in prev {
          assert RegenCheck(prev, m, last)[t] == (RegenCheck(prev, m, last) - {last})[t];
          assert prev[t] == (prev - {last})[t];
        }
      }
    }
  }

  /** StartRegenTimer's test on a list entry: regeneration on and below maximum. */
  predicate EntryWantsRegen(a: Attribute)
  {
    a.useRegen && a.value < a.maxValue
  }

  /** The timer table after StartRegenTimer walks the list: every entry that
      wants regeneration gets a running handle; nothing is ever removed. */
  function StartRegenAll(handles: map<Tag, bool>, s: seq<Attribute>): (r: map<Tag, bool>)
    ensures forall t :: t in r && (t !in handles || r[t] != handles[t]) ==> r[t]
  {
    if s == [] then handles
    else
      var prev := StartRegenAll(handles, s[..|s| - 1]);
      var a := s[|s| - 1];
      if EntryWantsRegen(a) then prev[a.tag := true] else prev
  }

  /** The timers StartRegenTimer starts: one for each wanting entry whose handle
      is not already running. */
  function StartRegenCalls(handles: map<Tag, bool>, s: seq<Attribute>): (r: seq<TimerCall>)
    ensures |r| <= |s|
    ensures forall i :: 0 <= i < |r| ==> r[i].StartRegen? && !IsActive(handles, r[i].tag)
  {
    if s == [] then []
    else
      var a := s[|s| - 1];
      StartRegenAllActivates(handles, s[..|s| - 1]);
      StartRegenCalls(handles, s[..|s| - 1])
      + (if EntryWantsRegen(a) && !IsActive(StartRegenAll(handles, s[..|s| - 1]), a.tag)
         then [StartRegen(a.tag)] else [])
  }

  /** After StartRegenTimer every list entry that wants regeneration has a
      running timer, and every handle that existed before still exists and is
      running if it was. */
  lemma {:induction false} StartRegenAllActivates(handles: map<Tag, bool>, s: seq<Attribute>)
    ensures forall i :: 0 <= i < |s| && EntryWantsRegen(s[i]) ==> IsActive(StartRegenAll(handles, s), s[i].tag)
    ensures handles.Keys <= StartRegenAll(handles, s).Keys
    ensures forall t :: IsActive(handles, t) ==> IsActive(StartRegenAll(handles, s), t)
  {
    if s != [] {
      var init := s[..|s| - 1];
      StartRegenAllActivates(handles, init);
      forall i | 0 <= i < |s| && EntryWantsRegen(s[i])
        ensures IsActive(StartRegenAll(handles, s), s[i].tag)
      {
        if i < |s| - 1 { assert init[i] == s[i]; }
      }
    }
  }

  // ---------------------------------------------------------------------------
  // Regeneration ticks (RegenerateAttributes)
  // ---------------------------------------------------------------------------

  /** One regeneration tick: value + regenValue clamped into [min, max]. */
  function Ticked(a: Attribute): (r: Attribute)
    ensures r == a.(value := r.value)
    ensures a.minValue <= a.maxValue ==> a.minValue <= r.value <= a.maxValue
  {
    a.(value := Clamp(a.value + a.regenValue, a.minValue, a.maxValue))
  }

  /** The tick stops the tag's timer: it changed the value and reached the maximum. */
  predicate TickStopsTimer(a: Attribute)
  {
    Ticked(a).value != a.value && Ticked(a).value >= a.maxValue
  }

  /** The tick reaches Inactive exactly when the changed value equals the maximum;
      a tick below the maximum, changed or not, leaves the timer running. */
  lemma TickStopsExactlyAtMax(a: Attribute)
    requires a.minValue <= a.maxValue
    ensures TickStopsTimer(a) <==> Ticked(a).value != a.value && Ticked(a).value == a.maxValue
    ensures Ticked(a).value < a.maxValue ==> !TickStopsTimer(a)
  {
  }

  /** Tags of `ts` that are ticked: found in the map with regeneration on. */
  predicate Ticks(m: map<Tag, Attribute>, t: Tag)
  {
    t in m && m[t].useRegen
  }

  /** The map after ticking the tags of `ts`. */
  function TickedMap(m: map<Tag, Attribute>, ts: set<Tag>): (r: map<Tag, Attribute>)
    ensures r.Keys == m.Keys
    ensures forall t :: t in r ==> r[t].tag == m[t].tag
    ensures forall t :: t in m && t !in ts ==> r[t] == m[t]
    ensures forall t :: t in ts && Ticks(m, t) ==> r[t] == Ticked(m[t])
    ensures forall t :: t in m && !m[t].useRegen ==> r[t] == m[t]
  {
    map t | t in m :: if t in ts && m[t].useRegen then Ticked(m[t]) else m[t]
  }

  /** The timer table after ticking the tags of `ts`: a handle is cleared when its
      tick reached the maximum, every entry is kept. */
  function TickedTimers(handles: map<Tag, bool>, m: map<Tag, Attribute>, ts: set<Tag>): (r: map<Tag, bool>)
    ensures r.Keys == handles.Keys
    ensures forall t :: t in handles && t in ts && Ticks(m, t) && TickStopsTimer(m[t]) ==> !r[t]
    ensures forall t :: t in handles && !(t in ts && Ticks(m, t) && TickStopsTimer(m[t])) ==> r[t] == handles[t]
  {
    map t | t in handles :: if t in ts && Ticks(m, t) && TickStopsTimer(m[t]) then false else handles[t]
  }

  /** Ticking one more tag `t` updates only t's entry in the map and in the table. */
  lemma TickStep(m: map<Tag, Attribute>, handles: map<Tag, bool>, ts: set<Tag>, t: Tag)
    requires t !in ts
    requires t in handles
    ensures Ticks(m, t) ==> TickedMap(m, ts + {t}) == TickedMap(m, ts)[t := Ticked(m[t])]
    ensures !Ticks(m, t) ==> TickedMap(m, ts + {t}) == TickedMap(m, ts)
    ensures Ticks(m, t) && TickStopsTimer(m[t]) ==>
              TickedTimers(handles, m, ts + {t}) == TickedTimers(handles, m, ts)[t := false]
    ensures !(Ticks(m, t) && TickStopsTimer(m[t])) ==>
              TickedTimers(handles, m, ts + {t}) == TickedTimers(handles, m, ts)
    ensures Ticks(m, t) ==> TickedMap(m, ts)[t] == m[t]
  {
  }

  /** The change broadcasts of ticking `order` in turn: one per changed value. */
  function TickEvents(m: map<Tag, Attribute>, order: seq<Tag>): (r: seq<Event>)
    ensures |r| <= |order|
    ensures forall i :: 0 <= i < |r| ==>
              r[i].AttributeChanged? && Ticks(m, r[i].tag) && r[i].newValue == Ticked(m[r[i].tag]).value
  {
    if order == [] then []
    else
      var t := order[|order| - 1];
      TickEvents(m, order[..|order| - 1]) + TickEvent(m, t)
  }

  /** The change broadcast of ticking one tag: present only when the value changed. */
  function TickEvent(m: map<Tag, Attribute>, t: Tag): (r: seq<Event>)
    ensures |r| <= 1
    ensures r != [] <==> Ticks(m, t) && Ticked(m[t]).value != m[t].value
  {
    if Ticks(m, t) && Ticked(m[t]).value != m[t].value then [AttributeChanged(t, Ticked(m[t]).value)] else []
  }

  /** Ticking one more tag appends its broadcast to those of the prefix. */
  lemma TickEventsStep(m: map<Tag, Attribute>, order: seq<Tag>, i: nat, e0: seq<Event>)
    requires i < |order|
    ensures e0 + TickEvents(m, order[..i + 1]) == e0 + TickEvents(m, order[..i]) + TickEvent(m, order[i])
  {
    assert order[..i + 1][..i] == order[..i];
  }

  /** The worked example: Health 50 in [0, 100] regenerating 10 per tick. After
      subtracting 30 it is 20, and the regeneration check of the changed value
      starts its timer. Each of the next seven ticks adds 10 and keeps the timer
      running; the eighth reaches 100 and stops it. */
  lemma HealthRegenScenario()
    ensures var a := NewAttribute(Health, 50.0, 0.0, 100.0, true, 1.0, 10.0);
            var b := CommitValue(a, 30.0, Subtract);
            var t1 := Ticked(b); var t2 := Ticked(t1); var t3 := Ticked(t2); var t4 := Ticked(t3);
            var t5 := Ticked(t4); var t6 := Ticked(t5); var t7 := Ticked(t6); var t8 := Ticked(t7);
            && b.value == 20.0
            && IsActive(RegenCheck(map[], map[Health := b], Health), Health)
            && RegenStarts(map[], map[Health := b], Health) == [StartRegen(Health)]
            && t1.value == 30.0 && t2.value == 40.0 && t3.value == 50.0 && t4.value == 60.0
            && t5.value == 70.0 && t6.value == 80.0 && t7.value == 90.0 && t8.value == 100.0
            && !TickStopsTimer(b) && !TickStopsTimer(t1) && !TickStopsTimer(t2) && !TickStopsTimer(t3)
            && !TickStopsTimer(t4) && !TickStopsTimer(t5) && !TickStopsTimer(t6)
            && TickStopsTimer(t7)
  {
  }

  /** The order in which a hash map visits its keys: each key exactly once. */
  ghost predicate Enumerates(order: seq<Tag>, keys: set<Tag>)
  {
    && (forall i, j :: 0 <= i < j < |order| ==> order[i] != order[j])
    && keys == set t | t in order
  }

  /** The keys an enumeration has visited before its i-th step. */
  function Visited(order: seq<Tag>, i: nat): (r: set<Tag>)
    requires i <= |order|
    ensures forall t :: t in r <==> t in order[..i]
  {
    if i == 0 then {}
    else
      assert order[..i] == order[..i - 1] + [order[i - 1]];
      Visited(order, i - 1) + {order[i - 1]}
  }

  /** The i-th step of an enumeration visits a key not visited before. */
  lemma EnumerationStep(order: seq<Tag>, keys: set<Tag>, i: nat)
    requires Enumerates(order, keys) && i < |order|
    ensures order[i] !in Visited(order, i) && order[i] in keys
  {
    assert order[i] in order;
  }

  /** A completed enumeration has visited exactly its keys. */
  lemma EnumerationDone(order: seq<Tag>, keys: set<Tag>)
    requires Enumerates(order, keys)
    ensures Visited(order, |order|) == keys
  {
    assert order[..|order|] == order;
  }

  /** One change broadcast per list entry, in list order (loading and resetting). */
  function ChangedEvents(s: seq<Attribute>): (r: seq<Event>)
    ensures |r| == |s|
    ensures forall i :: 0 <= i < |s| ==> r[i] == AttributeChanged(s[i].tag, s[i].value)
  {
    if s == [] then [] else ChangedEvents(s[..|s| - 1]) + [AttributeChanged(s[|s| - 1].tag, s[|s| - 1].value)]
  }

  /** Announcing one more list entry appends its change broadcast and extends
      the folds of the regeneration checks by that entry's check. */
  lemma AnnounceStep(handles: map<Tag, bool>, m: map<Tag, Attribute>, s: seq<Attribute>, i: nat,
                     e0: seq<Event>, c0: seq<TimerCall>)
    requires i < |s|
    ensures e0 + ChangedEvents(s[..i + 1]) == e0 + ChangedEvents(s[..i]) + [AttributeChanged(s[i].tag, s[i].value)]
    ensures RegenCheckAll(handles, m, s[..i + 1]) == RegenCheck(RegenCheckAll(handles, m, s[..i]), m, s[i].tag)
    ensures c0 + RegenStartsAll(handles, m, s[..i + 1])
            == c0 + RegenStartsAll(handles, m, s[..i]) + RegenStarts(RegenCheckAll(handles, m, s[..i]), m, s[i].tag)
  {
    assert s[..i + 1][..i] == s[..i];
  }

  // ---------------------------------------------------------------------------
  // Persistence: snapshot and merge
  // ---------------------------------------------------------------------------

  /** The saved payload: every tag of the map with its current value. */
  function Snapshot(m: map<Tag, Attribute>): (r: map<Tag, real>)
    ensures r.Keys == m.Keys
    ensures forall t :: t in m ==> r[t] == m[t].value
  {
    map t | t in m :: m[t].value
  }

  /** LoadAttributes' merge: tags in both the map and the snapshot take the
      saved value, unclamped; every other entry is unchanged; snapshot-only
      tags are ignored. */
  function Merge(m: map<Tag, Attribute>, saved: map<Tag, real>): (r: map<Tag, Attribute>)
    ensures r.Keys == m.Keys
    ensures forall t :: t in m && t in saved ==> r[t] == m[t].(value := saved[t])
    ensures forall t :: t in m && t !in saved ==> r[t] == m[t]
  {
    MergedOn(m, saved, m.Keys)
  }

  /** The merge restricted to the tags of `ts` (the tags visited so far). */
  function MergedOn(m: map<Tag, Attribute>, saved: map<Tag, real>, ts: set<Tag>): (r: map<Tag, Attribute>)
    ensures r.Keys == m.Keys
    ensures forall t :: t in r ==> r[t].tag == m[t].tag
    ensures forall t :: t in m && t in saved && t in ts ==> r[t] == m[t].(value := saved[t])
    ensures forall t :: t in m && !(t in saved && t in ts) ==> r[t] == m[t]
  {
    map t | t in m :: if t in saved && t in ts then m[t].(value := saved[t]) else m[t]
  }

  /** Merging one more tag `t` updates only t's entry. */
  lemma MergeStep(m: map<Tag, Attribute>, saved: map<Tag, real>, ts: set<Tag>, t: Tag)
    requires t !in ts && t in m
    ensures MergedOn(m, saved, ts)[t] == m[t]
    ensures t in saved ==> MergedOn(m, saved, ts + {t}) == MergedOn(m, saved, ts)[t := m[t].(value := saved[t])]
    ensures t !in saved ==> MergedOn(m, saved, ts + {t}) == MergedOn(m, saved, ts)
  {
  }

  /** The change broadcasts of the merge, one per merged tag in visiting order. */
  function MergeEvents(saved: map<Tag, real>, order: seq<Tag>): (r: seq<Event>)
    ensures |r| <= |order|
    ensures forall i :: 0 <= i < |r| ==>
              r[i].AttributeChanged? && r[i].tag in saved && r[i].newValue == saved[r[i].tag]
  {
    if order == [] then []
    else
      var t := order[|order| - 1];
      MergeEvents(saved, order[..|order| - 1]) + MergeEvent(saved, t)
  }

  /** Merging one more tag appends its broadcast to those of the prefix. */
  lemma MergeEventsStep(saved: map<Tag, real>, order: seq<Tag>, i: nat, e0: seq<Event>)
    requires i < |order|
    ensures e0 + MergeEvents(saved, order[..i + 1]) == e0 + MergeEvents(saved, order[..i]) + MergeEvent(saved, order[i])
  {
    assert order[..i + 1][..i] == order[..i];
  }

  /** The change broadcast of merging one tag: present only when the snapshot holds it. */
  function MergeEvent(saved: map<Tag, real>, t: Tag): (r: seq<Event>)
    ensures r != [] <==> t in saved
    ensures t in saved ==> r == [AttributeChanged(t, saved[t])]
  {
    if t in saved then [AttributeChanged(t, saved[t])] else []
  }

  /** Round trip: merging a snapshot back into a map that has since changed only
      current values restores exactly the saved map. */
  lemma SaveThenLoadRestores(saved: map<Tag, Attribute>, now: map<Tag, Attribute>)
    requires now.Keys == saved.Keys
    requires forall t :: t in saved ==> now[t] == saved[t].(value := now[t].value)
    ensures Merge(now, Snapshot(saved)) == saved
  {
  }

  /** The worked example: restoring {Health: 40} into Health and Mana updates only
      Health and broadcasts one change. */
  lemma RestoreScenario(mana: Tag, h: Attribute, mn: Attribute)
    requires mana != Health
    ensures var m := map[Health := h, mana := mn];
            var r := Merge(m, map[Health := 40.0]);
            r[Health].value == 40.0 && r[mana] == mn &&
            MergeEvents(map[Health := 40.0], [Health, mana]) == [AttributeChanged(Health, 40.0)]
  {
    assert [Health, mana][..1] == [Health];
  }
}
