/** What nanopb writes (pb_encode.c), in terms of the message alone: which fields it leaves out, and when it fails. */
module PbWritten {
  import opened PbTypes

  /** Zero, no bytes, no character before the NUL, or a message that holds nothing. */
  ghost predicate IsZero(kind: Kind, v: Value)
    requires HasShape(kind, v)
    decreases v
  {
    match kind
    case Bytes(_) => |v.bytes| == 0
    case Str(_) => |v.bytes| == 0 || v.bytes[0] == 0
    case FixedBytes(size) => size == 0
    case Submessage(desc) => HoldsNothing(desc, v.message)
    case _ => v.n == 0
  }

  /** Nothing is present, and a proto3 field is zero.  Required fields and arrays of a fixed count always count. */
  ghost predicate IsNothing(field: Field, slot: Slot)
    requires SlotHasShape(field, slot)
    decreases slot
  {
    match field.rule
    case Required => false
    case Optional => !slot.has
    case Singular => IsZero(field.kind, slot.values[0])
    case Repeated(_) => |slot.values| == 0
    case FixedCount(_) => false
    case OneOf(_) => !slot.has
  }

  ghost predicate HoldsNothing(desc: Desc, m: Message)
    requires MessageHasShape(desc, m)
    decreases m
  {
    forall i :: 0 <= i < |m.slots| ==> IsNothing(desc.fields[i], m.slots[i])
  }

  /** A proto3 field counts as default exactly when it is zero. */
  lemma {:induction false} DefaultIsZero(desc: Desc, m: Message, i: nat)
    requires MessageHasShape(desc, m) && i < |m.slots| && desc.fields[i].rule.Singular?
    ensures SlotHasShape(desc.fields[i], m.slots[i])
    ensures IsDefault(desc, m, i) <==> IsZero(desc.fields[i].kind, m.slots[i].values[0])
    decreases m, 0
  {
    var field, slot := desc.fields[i], m.slots[i];
    assert SlotHasShape(field, slot) && HasShape(field.kind, slot.values[0]);
    if field.kind.Submessage? {
      ValueSmaller(m, i);
      AllDefaultHoldsNothing(field.kind.desc, slot.values[0].message);
    }
  }

  lemma {:induction false} AllDefaultHoldsNothing(desc: Desc, m: Message)
    requires MessageHasShape(desc, m)
    ensures AllDefault(desc, m) <==> HoldsNothing(desc, m)
    decreases m, 1
  {
    hide IsZero;
    forall i | 0 <= i < |m.slots| && desc.fields[i].rule.Singular?
      ensures SlotHasShape(desc.fields[i], m.slots[i])
      ensures IsDefault(desc, m, i) <==> IsZero(desc.fields[i].kind, m.slots[i].values[0])
    {
      DefaultIsZero(desc, m, i);
    }
    if AllDefault(desc, m) {
      forall i | 0 <= i < |m.slots| ensures IsNothing(desc.fields[i], m.slots[i]) {
        assert SlotHasShape(desc.fields[i], m.slots[i]) && IsDefault(desc, m, i);
      }
    }
    if HoldsNothing(desc, m) {
      forall i | 0 <= i < |m.slots| ensures IsDefault(desc, m, i) {
        assert IsNothing(desc.fields[i], m.slots[i]);
        forall k | 0 <= k < |m.slots| && desc.fields[k].rule.OneOf? ensures !m.slots[k].has {
          assert IsNothing(desc.fields[k], m.slots[k]);
        }
      }
    }
  }

  lemma TaggedIsSomething(field: Field, slot: Slot, j: nat)
    requires SlotHasShape(field, slot) && j < |slot.values|
    ensures EncodeTagged(field, slot, j) != Ok([])
  {
    assert TagBytes(field.tag, WireType(field.kind)) != [];
  }

  lemma ArrayIsSomething(field: Field, slot: Slot)
    requires SlotHasShape(field, slot) && |slot.values| > 0
    ensures EncodeArray(field, slot) != Ok([])
  {
    assert TagBytes(field.tag, WIRE_STRING) != [];
    TaggedIsSomething(field, slot, 0);
  }

  /** A field is left out exactly when it holds nothing; an array of the fixed count 0 has nothing to write. */
  lemma LeftOutExactly(desc: Desc, m: Message, i: nat)
    requires MessageHasShape(desc, m) && i < |m.slots|
    ensures SlotHasShape(desc.fields[i], m.slots[i])
    ensures EncodeField(desc, m, i) == Ok([]) <==>
            IsNothing(desc.fields[i], m.slots[i]) || (desc.fields[i].rule.FixedCount? && |m.slots[i].values| == 0)
  {
    hide IsZero, TagBytes, EncodeTagged, EncodeArray;
    var field, slot := desc.fields[i], m.slots[i];
    assert SlotHasShape(field, slot);
    if field.rule.Singular? {
      DefaultIsZero(desc, m, i);
    }
    if |slot.values| > 0 {
      TaggedIsSomething(field, slot, 0);
      ArrayIsSomething(field, slot);
    } else {
      EmptyArray(field, slot);
    }
  }

  lemma EmptyArray(field: Field, slot: Slot)
    requires SlotHasShape(field, slot) && slot.values == []
    ensures EncodeArray(field, slot) == Ok([])
  {
  }

  /** Nothing is written for a message exactly when every field is left out. */
  lemma {:induction false} EmptyExactly(desc: Desc, m: Message, i: nat)
    requires MessageHasShape(desc, m) && i <= |m.slots|
    ensures EncodeFrom(desc, m, i) == Ok([]) <==>
            forall k :: i <= k < |m.slots| ==>
              IsNothing(desc.fields[k], m.slots[k]) || (desc.fields[k].rule.FixedCount? && |m.slots[k].values| == 0)
    decreases |m.slots| - i
  {
    hide EncodeField, IsNothing;
    if i < |m.slots| {
      LeftOutExactly(desc, m, i);
      EmptyExactly(desc, m, i + 1);
    }
  }

  // ----- when encoding succeeds -----

  ghost predicate ValueWritable(kind: Kind, v: Value)
    requires HasShape(kind, v)
    decreases v
  {
    match kind
    case Bytes(max) => |v.bytes| <= max
    case Submessage(desc) => MessageWritable(desc, v.message)
    case _ => true
  }

  /** No array is longer than its room. */
  ghost predicate SlotWritable(field: Field, slot: Slot)
    requires SlotHasShape(field, slot)
    decreases slot
  {
    && (field.rule.Repeated? ==> |slot.values| <= field.rule.max)
    && forall j :: 0 <= j < |slot.values| ==> ValueWritable(field.kind, slot.values[j])
  }

  ghost predicate MessageWritable(desc: Desc, m: Message)
    requires MessageHasShape(desc, m)
    decreases m
  {
    forall i :: 0 <= i < |m.slots| ==> IsNothing(desc.fields[i], m.slots[i]) || SlotWritable(desc.fields[i], m.slots[i])
  }

  lemma {:induction false} ValueSucceeds(kind: Kind, v: Value)
    requires HasShape(kind, v)
    ensures EncodeValue(kind, v).Ok? <==> ValueWritable(kind, v)
    decreases v, 0
  {
    if kind.Submessage? {
      EncodingSucceeds(kind.desc, v.message, 0);
    }
  }

  lemma {:induction false} PackedSucceeds(field: Field, slot: Slot, j: nat)
    requires SlotHasShape(field, slot) && j <= |slot.values|
    ensures EncodePacked(field, slot, j).Ok? <==>
            forall e :: j <= e < |slot.values| ==> ValueWritable(field.kind, slot.values[e])
    decreases slot, |slot.values| - j
  {
    hide EncodeValue, ValueWritable;
    if j < |slot.values| {
      ValueSucceeds(field.kind, slot.values[j]);
      PackedSucceeds(field, slot, j + 1);
    }
  }

  lemma {:induction false} UnpackedSucceeds(field: Field, slot: Slot, j: nat)
    requires SlotHasShape(field, slot) && j <= |slot.values|
    ensures EncodeUnpacked(field, slot, j).Ok? <==>
            forall e :: j <= e < |slot.values| ==> ValueWritable(field.kind, slot.values[e])
    decreases slot, |slot.values| - j
  {
    hide EncodeValue, ValueWritable;
    if j < |slot.values| {
      ValueSucceeds(field.kind, slot.values[j]);
      UnpackedSucceeds(field, slot, j + 1);
    }
  }

  lemma {:induction false} FieldSucceeds(desc: Desc, m: Message, i: nat)
    requires MessageHasShape(desc, m) && i < |m.slots|
    ensures SlotHasShape(desc.fields[i], m.slots[i])
    ensures EncodeField(desc, m, i).Ok? <==>
            IsNothing(desc.fields[i], m.slots[i]) || SlotWritable(desc.fields[i], m.slots[i])
    decreases m, 0
  {
    hide IsZero, ValueWritable, EncodeValue, EncodePacked, EncodeUnpacked, IsDefault;
    var field, slot := desc.fields[i], m.slots[i];
    assert SlotHasShape(field, slot) && slot < m;
    if field.rule.Singular? {
      DefaultIsZero(desc, m, i);
    }
    PackedSucceeds(field, slot, 0);
    UnpackedSucceeds(field, slot, 0);
    if |slot.values| > 0 {
      ValueSucceeds(field.kind, slot.values[0]);
    }
  }

  /** Encoding succeeds exactly when every field that is not left out fits. */
  lemma {:induction false} EncodingSucceeds(desc: Desc, m: Message, i: nat)
    requires MessageHasShape(desc, m) && i <= |m.slots|
    ensures EncodeFrom(desc, m, i).Ok? <==>
            forall k :: i <= k < |m.slots| ==>
              IsNothing(desc.fields[k], m.slots[k]) || SlotWritable(desc.fields[k], m.slots[k])
    decreases m, |m.slots| - i + 1
  {
    hide EncodeField, IsNothing, SlotWritable;
    if i < |m.slots| {
      FieldSucceeds(desc, m, i);
      EncodingSucceeds(desc, m, i + 1);
    }
  }
}
