/** Messages that fit into their structs (pb.h): no array holds more than its room. */
module PbBounds {
  import opened PbTypes
  import opened PbRestore
  import opened PbWire

  /** A string leaves room for its NUL. */
  ghost predicate ValueFits(kind: Kind, v: Value)
    decreases v
  {
    match kind
    case Bytes(max) => v.Blob? && |v.bytes| <= max
    case Str(max) => v.Blob? && (|v.bytes| < max || v.bytes == [])
    case Submessage(desc) => v.Record? && MessageFits(desc, v.message)
    case _ => true
  }

  ghost predicate SlotFits(field: Field, slot: Slot)
    decreases slot
  {
    && (IsArray(field.rule) ==> |slot.values| <= Limit(field.rule))
    && forall j :: 0 <= j < |slot.values| ==> ValueFits(field.kind, slot.values[j])
  }

  ghost predicate MessageFits(desc: Desc, m: Message)
    decreases m
  {
    |m.slots| == |desc.fields| && forall i :: 0 <= i < |m.slots| ==> SlotFits(desc.fields[i], m.slots[i])
  }

  ghost predicate KindFits(kind: Kind)
    decreases kind
  {
    kind.Submessage? ==> DescFits(kind.desc)
  }

  /** The default values that a descriptor gives fit. */
  ghost predicate DescFits(desc: Desc)
    decreases desc
  {
    forall i :: 0 <= i < |desc.fields| ==> FieldFits(desc.fields[i])
  }

  ghost predicate FieldFits(field: Field)
    decreases field
  {
    KindFits(field.kind) && (field.init.Some? ==> ValueFits(field.kind, field.init.value))
  }

  lemma {:induction false} DefaultFits(desc: Desc)
    requires DescFits(desc)
    ensures MessageFits(desc, DefaultMessage(desc))
    decreases desc, 2
  {
    forall i | 0 <= i < |desc.fields| ensures SlotFits(desc.fields[i], DefaultSlot(desc.fields[i])) {
      DefaultSlotFits(desc.fields[i]);
    }
  }

  lemma {:induction false} DefaultSlotFits(field: Field)
    requires FieldFits(field)
    ensures SlotFits(field, DefaultSlot(field))
    decreases field, 1
  {
    DefaultValueFits(field.kind);
  }

  lemma {:induction false} DefaultValueFits(kind: Kind)
    requires KindFits(kind)
    ensures ValueFits(kind, DefaultValue(kind))
    decreases kind, 0
  {
    if kind.Submessage? {
      DefaultFits(kind.desc);
    }
  }
}
