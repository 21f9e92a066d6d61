// The value types declared beside the component (Public/AttributeComponent.h):
// the arithmetic operation, the modifier record, and the two logs that stand
// for the component's delegate broadcasts and its calls into the engine's
// timer manager.

module AttributeTypes {
  import opened AttributeData

  /** An optional value: a data asset that may be unassigned, a save slot that may be empty. */
  datatype Option<T> = None | Some(value: T)

  /** The largest finite single-precision float; the only ceiling of a maximum bound. */
  const FltMax: real := 340282346638528859811704183484516925440.0

  /** The five operations. The type has exactly these cases, so the switches'
      `default:` branches have no counterpart in the model. */
  datatype Operation = Add | Subtract | Multiply | Divide | Override

  /** The operation the value, minimum and maximum setters use when none is given. */
  const DefaultOperation: Operation := Override

  /** An additive modifier; Duration -1 means permanent, > 0 temporary. */
  datatype Modifier = Modifier(tag: Tag, value: real, duration: real)

  /** The permanent duration, used by both constructors when none is given. */
  const PermanentDuration: real := -1.0

  /** The default constructor: no tag, value 0, permanent. */
  function DefaultModifier(): (m: Modifier)
    ensures m.tag == EmptyTag && m.value == 0.0
    ensures IsPermanent(m) && !SchedulesRevert(m)
  {
    Modifier(EmptyTag, 0.0, PermanentDuration)
  }

  /** The value constructor; the duration is optional and defaults to permanent. */
  function NewModifier(tag: Tag, value: real, duration: real := PermanentDuration): (m: Modifier)
    ensures m.tag == tag && m.value == value && m.duration == duration
  {
    Modifier(tag, value, duration)
  }

  /** The header's reading of the sentinel. */
  predicate IsPermanent(m: Modifier)
  {
    m.duration == PermanentDuration
  }

  /** Only a strictly positive duration makes ApplyModifier schedule a revert. */
  predicate SchedulesRevert(m: Modifier)
  {
    m.duration > 0.0
  }

  /** A permanent modifier, and the value constructor's default, never schedule a revert. */
  lemma PermanentNeverReverts(m: Modifier, tag: Tag, value: real)
    ensures IsPermanent(m) ==> !SchedulesRevert(m)
    ensures !SchedulesRevert(NewModifier(tag, value))
    ensures IsPermanent(NewModifier(tag, value))
  {
  }

  /** One delegate broadcast. OnHealthChanged is declared but never broadcast. */
  datatype Event =
    | AttributeChanged(tag: Tag, newValue: real)
    | PreAttributeChanged(tag: Tag, proposedValue: real)
    | AttributeAdded(tag: Tag, initialValue: real)
    | AttributeRemoved(tag: Tag)
    | ThresholdReached(tag: Tag, currentValue: real)
    | AttributesInitialized
    | Death

  /** One request to the engine's timer manager that starts something:
      a repeating regeneration timer for a tag, or a one-shot revert of a modifier. */
  datatype TimerCall =
    | StartRegen(tag: Tag)
    | ScheduleRevert(modifier: Modifier)
}
