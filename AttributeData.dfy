// The attribute definition record and the data asset that lists the
// initial definitions (Public/AttributeData.h).

module AttributeData {

  /** A gameplay tag. Only its identity matters: tags are compared for equality. */
  datatype Tag = Tag(name: string)

  /** The tag of a default-constructed FGameplayTag. */
  const EmptyTag: Tag := Tag("")

  /** The distinguished vital attribute used by the health wrappers. */
  const Health: Tag := Tag("Attribute.Health")

  /** One attribute: current value, its bounds and its regeneration settings. */
  datatype Attribute = Attribute(
    tag: Tag,
    value: real,
    minValue: real,
    maxValue: real,
    useRegen: bool,
    regenRate: real,   // seconds between ticks; the timer period is not modelled
    regenValue: real)  // amount added per tick

  /** The attribute is inside its own bounds and the lower bound is not negative. */
  predicate InRange(a: Attribute)
  {
    0.0 <= a.minValue <= a.value <= a.maxValue
  }

  /** The default constructor: value 0 in [0, 100], regeneration off. */
  function DefaultAttribute(): (a: Attribute)
    ensures a.tag == EmptyTag && !a.useRegen
    ensures a.value == 0.0 && a.minValue == 0.0 && a.maxValue == 100.0
    ensures a.regenRate == 0.0 && a.regenValue == 0.0
    ensures InRange(a)
  {
    Attribute(EmptyTag, 0.0, 0.0, 100.0, false, 0.0, 0.0)
  }

  /** The full constructor: copies its arguments without any validation;
      the regeneration arguments are optional and default to off / 0 / 0. */
  function NewAttribute(tag: Tag, value: real, minValue: real, maxValue: real,
                        useRegen: bool := false, regenRate: real := 0.0,
                        regenValue: real := 0.0): (a: Attribute)
    ensures a.tag == tag && a.value == value
    ensures a.minValue == minValue && a.maxValue == maxValue
    ensures a.useRegen == useRegen && a.regenRate == regenRate && a.regenValue == regenValue
  {
    Attribute(tag, value, minValue, maxValue, useRegen, regenRate, regenValue)
  }

  /** Since nothing is validated, a definition may start outside its own bounds,
      and the short form leaves regeneration off. */
  lemma NewAttributeIsUnchecked()
    ensures !InRange(NewAttribute(Health, 150.0, 0.0, 100.0))
    ensures !NewAttribute(Health, 50.0, 0.0, 100.0).useRegen
    ensures NewAttribute(Health, 50.0, 0.0, 100.0).regenValue == 0.0
  {
  }

  /** The data asset: a read-only ordered list of definitions that may repeat a tag. */
  datatype AttributeDataAsset = AttributeDataAsset(attributes: seq<Attribute>)

  /** The set of tags that occur in a list of definitions. */
  function Tags(s: seq<Attribute>): (r: set<Tag>)
    ensures forall i :: 0 <= i < |s| ==> s[i].tag in r
    ensures forall t :: t in r ==> exists i :: 0 <= i < |s| && s[i].tag == t
  {
    set i | 0 <= i < |s| :: s[i].tag
  }
}
