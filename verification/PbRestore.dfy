/** What decoding must restore (pb_decode.c): which messages can be restored, and when a decoded message is the same. */
module PbRestore {
  import opened PbTypes

  // ----- descriptors -----

  ghost predicate KindOk(kind: Kind)
    decreases kind
  {
    match kind
    case Varint(w) => IsWidth(w)
    case UVarint(w) => IsWidth(w)
    case SVarint(w) => IsWidth(w)
    case Submessage(desc) => DescOk(desc)
    case _ => true
  }

  /** Tags are distinct, nonzero and below 2^29. */
  ghost predicate DescOk(desc: Desc)
    decreases desc
  {
    && (forall i :: 0 <= i < |desc.fields| ==> FieldOk(desc.fields[i]))
    && (forall i, j :: 0 <= i < j < |desc.fields| ==> desc.fields[i].tag != desc.fields[j].tag)
  }

  /** A default value fits its field. */
  ghost predicate FieldOk(field: Field)
    decreases field
  {
    && 0 < field.tag < 0x2000_0000 && KindOk(field.kind) && (field.rule.FixedCount? ==> field.rule.count > 0)
    && (field.init.Some? ==> HasShape(field.kind, field.init.value))
  }

  // ----- defaults -----

  function DefaultValue(kind: Kind): Value
    decreases kind
  {
    match kind
    case Bytes(_) => Blob([])
    case Str(_) => Blob([])
    case FixedBytes(size) => Blob(seq(size, _ => 0))
    case Submessage(desc) => Record(DefaultMessage(desc))
    case _ => Number(0)
  }

  function InitialValue(field: Field): Value
    decreases field, 1
  {
    if field.init.Some? && !field.kind.Submessage? then field.init.value else DefaultValue(field.kind)
  }

  function DefaultSlot(field: Field): Slot
    decreases field, 2
  {
    match field.rule
    case Repeated(_) => Slot(false, [])
    case OneOf(_) => Slot(false, [DefaultValue(field.kind)])
    case FixedCount(count) => var v := DefaultValue(field.kind); Slot(false, seq(count, _ => v))
    case _ => Slot(false, [InitialValue(field)])
  }

  /** `pb_message_set_to_defaults` */
  function DefaultMessage(desc: Desc): Message
    decreases desc
  {
    Message(seq(|desc.fields|, i requires 0 <= i < |desc.fields| => DefaultSlot(desc.fields[i])))
  }

  /** A value without a default of its own: zeros, nothing, or a message as it begins. */
  ghost predicate IsInitialValue(kind: Kind, v: Value)
    decreases v
  {
    match kind
    case Bytes(_) => v.Blob? && |v.bytes| == 0
    case Str(_) => v.Blob? && |v.bytes| == 0
    case FixedBytes(size) => v.Blob? && |v.bytes| == size && forall k :: 0 <= k < size ==> v.bytes[k] == 0
    case Submessage(desc) => v.Record? && IsInitialMessage(desc, v.message)
    case _ => v.Number? && v.n == 0
  }

  /** A field before anything has come for it: absent, with no elements, or with the default that its descriptor
      gives. */
  ghost predicate IsInitialSlot(field: Field, b: Slot)
    decreases b
  {
    && !b.has
    && match field.rule
       case OneOf(_) => true
       case Repeated(_) => |b.values| == 0
       case FixedCount(count) =>
         |b.values| == count && forall j :: 0 <= j < count ==> IsInitialValue(field.kind, b.values[j])
       case _ =>
         && |b.values| == 1
         && if field.init.Some? && !field.kind.Submessage? then b.values[0] == field.init.value
            else IsInitialValue(field.kind, b.values[0])
  }

  ghost predicate IsInitialMessage(desc: Desc, r: Message)
    decreases r
  {
    |r.slots| == |desc.fields| && forall i :: 0 <= i < |r.slots| ==> IsInitialSlot(desc.fields[i], r.slots[i])
  }

  lemma {:induction false} DefaultIsInitial(desc: Desc)
    ensures IsInitialMessage(desc, DefaultMessage(desc))
    decreases desc, 2
  {
    forall i | 0 <= i < |desc.fields| ensures IsInitialSlot(desc.fields[i], DefaultSlot(desc.fields[i])) {
      DefaultSlotIsInitial(desc.fields[i]);
    }
  }

  lemma {:induction false} DefaultSlotIsInitial(field: Field)
    ensures IsInitialSlot(field, DefaultSlot(field))
    decreases field, 1
  {
    DefaultValueIsInitial(field.kind);
  }

  lemma {:induction false} DefaultValueIsInitial(kind: Kind)
    ensures IsInitialValue(kind, DefaultValue(kind))
    decreases kind, 0
  {
    if kind.Submessage? {
      DefaultIsInitial(kind.desc);
    }
  }

  lemma {:induction false} DefaultHasShape(desc: Desc)
    requires DescOk(desc)
    ensures MessageHasShape(desc, DefaultMessage(desc))
    decreases desc, 2
  {
    forall i | 0 <= i < |desc.fields| ensures SlotHasShape(desc.fields[i], DefaultSlot(desc.fields[i])) {
      DefaultSlotHasShape(desc.fields[i]);
    }
  }

  lemma {:induction false} DefaultSlotHasShape(field: Field)
    requires FieldOk(field)
    ensures SlotHasShape(field, DefaultSlot(field))
    decreases field, 1
  {
    DefaultValueHasShape(field.kind);
  }

  lemma {:induction false} DefaultValueHasShape(kind: Kind)
    requires KindOk(kind)
    ensures HasShape(kind, DefaultValue(kind))
    decreases kind, 0
  {
    if kind.Submessage? {
      DefaultHasShape(kind.desc);
    }
  }

  // ----- sameness -----

  /** Of a string, what comes before the first NUL of its array. */
  ghost predicate SameValue(kind: Kind, v: Value, w: Value)
    decreases v
  {
    if kind.Submessage? && v.Record? then w.Record? && SameMessage(kind.desc, v.message, w.message)
    else if kind.Str? && v.Blob? then w == Blob(CString(v.bytes, kind.max))
    else v == w
  }

  /** Present values are the same; what is absent is absent. */
  ghost predicate SameSlot(field: Field, a: Slot, b: Slot)
    decreases a
  {
    match field.rule
    case Optional => a.has == b.has && (a.has ==> SameValues(field, a, b))
    case OneOf(_) => a.has == b.has && (a.has ==> SameValues(field, a, b))
    case _ => SameValues(field, a, b)
  }

  ghost predicate SameValues(field: Field, a: Slot, b: Slot)
    decreases a, 0
  {
    |a.values| == |b.values| && forall j :: 0 <= j < |a.values| ==> SameValue(field.kind, a.values[j], b.values[j])
  }

  ghost predicate SameMessage(desc: Desc, m: Message, r: Message)
    decreases m
  {
    |m.slots| == |r.slots| == |desc.fields| && forall i :: 0 <= i < |m.slots| ==>
        SameSlot(desc.fields[i], m.slots[i], r.slots[i])
  }

  // ----- messages that can be restored -----

  /** Of each union at most one field is stored, in submessages too. */
  ghost predicate ValueOk(kind: Kind, v: Value)
    decreases v
  {
    kind.Submessage? ==> v.Record? && MessageOk(kind.desc, v.message)
  }

  ghost predicate SlotOk(field: Field, slot: Slot)
    decreases slot
  {
    (slot.has || !(field.rule.Optional? || field.rule.OneOf?)) ==>
      forall j :: 0 <= j < |slot.values| ==> ValueOk(field.kind, slot.values[j])
  }

  ghost predicate InOneUnion(desc: Desc, i: nat, k: nat)
    requires i < |desc.fields| && k < |desc.fields|
  {
    desc.fields[i].rule.OneOf? && desc.fields[i].rule == desc.fields[k].rule
  }

  ghost predicate MessageOk(desc: Desc, m: Message)
    decreases m
  {
    && |m.slots| == |desc.fields|
    && (forall i :: 0 <= i < |m.slots| ==> SlotOk(desc.fields[i], m.slots[i]))
    && (forall i, k :: 0 <= i < k < |m.slots| && InOneUnion(desc, i, k) ==> !(m.slots[i].has && m.slots[k].has))
  }

  // ----- messages whose encoding can be read back -----

  /** The array of a string has room for a NUL after it. */
  ghost predicate ValueReadable(kind: Kind, v: Value)
    requires HasShape(kind, v)
    decreases v
  {
    match kind
    case Str(max) => |CString(v.bytes, max)| < max
    case Submessage(desc) => MessageReadable(desc, v.message)
    case _ => true
  }

  ghost predicate SlotReadable(field: Field, slot: Slot)
    requires SlotHasShape(field, slot)
    decreases slot
  {
    forall j :: 0 <= j < |slot.values| ==> ValueReadable(field.kind, slot.values[j])
  }

  /** No string that is written fills its array. */
  ghost predicate MessageReadable(desc: Desc, m: Message)
    requires MessageHasShape(desc, m)
    decreases m
  {
    forall i :: 0 <= i < |m.slots| && IsWritten(desc, m, i) ==> SlotReadable(desc.fields[i], m.slots[i])
  }

  // ----- what decoding leaves: what was written, and defaults for the rest -----

  ghost predicate DecodedValue(kind: Kind, v: Value, w: Value)
    decreases v
  {
    if kind.Submessage? && v.Record? && MessageHasShape(kind.desc, v.message) then
      w.Record? && DecodedMessage(kind.desc, v.message, w.message)
    else if kind.Str? && v.Blob? then w == Blob(CString(v.bytes, kind.max))
    else v == w
  }

  ghost predicate DecodedValues(field: Field, a: Slot, b: Slot)
    decreases a, 0
  {
    |a.values| == |b.values| && forall j :: 0 <= j < |a.values| ==> DecodedValue(field.kind, a.values[j], b.values[j])
  }

  /** A field that was written. */
  ghost predicate DecodedSlot(field: Field, a: Slot, b: Slot)
    decreases a, 1
  {
    (field.rule.Optional? || field.rule.OneOf? ==> b.has) && DecodedValues(field, a, b)
  }

  ghost predicate DecodedField(desc: Desc, m: Message, i: nat, b: Slot)
    requires MessageHasShape(desc, m) && i < |m.slots|
    decreases m, 0
  {
    if IsWritten(desc, m, i) then DecodedSlot(desc.fields[i], m.slots[i], b) else IsInitialSlot(desc.fields[i], b)
  }

  ghost predicate DecodedMessage(desc: Desc, m: Message, r: Message)
    requires MessageHasShape(desc, m)
    decreases m, 1
  {
    |r.slots| == |m.slots| && forall i :: 0 <= i < |m.slots| ==> DecodedField(desc, m, i, r.slots[i])
  }

  // ----- decoding into a message that is there -----

  /** Something comes for the field. */
  ghost predicate Comes(desc: Desc, m: Message, i: nat)
    requires MessageHasShape(desc, m) && i < |m.slots|
  {
    IsWritten(desc, m, i) && m.slots[i].values != []
  }

  /** No repeated field for which something comes has elements yet. */
  ghost predicate SlotReady(field: Field, b: Slot, a: Slot)
    requires SlotHasShape(field, a)
    decreases a
  {
    && (field.rule.Repeated? ==> b.values == [])
    && (!IsArray(field.rule) && field.kind.Submessage? && (field.rule.OneOf? ==> b.has) ==>
          && |b.values| == 1 && b.values[0].Record?
          && assert HasShape(field.kind, a.values[0]); Ready(field.kind.desc, b.values[0].message, a.values[0].message))
  }

  ghost predicate Ready(desc: Desc, r: Message, m: Message)
    requires MessageHasShape(desc, m)
    decreases m
  {
    && |r.slots| == |m.slots|
    && forall i :: 0 <= i < |m.slots| && Comes(desc, m, i) ==> SlotReady(desc.fields[i], r.slots[i], m.slots[i])
  }

  /** A submessage is decoded into what is there, or into the defaults if it is another field of its union. */
  function Present(field: Field, b: Slot): Value
    requires |b.values| > 0
  {
    if field.rule.OneOf? && field.kind.Submessage? && !b.has then DefaultValue(field.kind) else b.values[0]
  }

  /** What comes takes the place of what is there, and submessages are merged. */
  ghost predicate MergedSlot(field: Field, b0: Slot, a: Slot, b: Slot)
    requires SlotHasShape(field, a)
    decreases a
  {
    && (field.rule.Optional? || field.rule.OneOf? ==> b.has)
    && if IsArray(field.rule) || !field.kind.Submessage? then DecodedValues(field, a, b)
       else
         && |b.values| == 1 && |b0.values| == 1
         && assert HasShape(field.kind, a.values[0]);
            MergedValue(field.kind, Present(field, b0), a.values[0], b.values[0])
  }

  ghost predicate MergedValue(kind: Kind, present: Value, v: Value, w: Value)
    requires HasShape(kind, v)
    decreases v
  {
    if kind.Submessage? then
      present.Record? && w.Record? && MergedMessage(kind.desc, present.message, v.message, w.message)
    else DecodedValue(kind, v, w)
  }

  /** Of a union only the last that came is stored; all else stays as it was. */
  ghost predicate MergedField(desc: Desc, r0: Message, m: Message, i: nat, b: Slot)
    requires MessageHasShape(desc, m) && i < |m.slots| == |r0.slots|
    decreases m, 0
  {
    if Comes(desc, m, i) then MergedSlot(desc.fields[i], r0.slots[i], m.slots[i], b)
    else if exists k: nat :: k < |m.slots| && InOneUnion(desc, i, k) && Comes(desc, m, k) then !b.has
    else b == r0.slots[i]
  }

  ghost predicate MergedMessage(desc: Desc, r0: Message, m: Message, r: Message)
    requires MessageHasShape(desc, m)
    decreases m, 1
  {
    |r.slots| == |m.slots| == |r0.slots| && forall i :: 0 <= i < |m.slots| ==> MergedField(desc, r0, m, i, r.slots[i])
  }

  lemma SubmessageDefault(field: Field)
    requires field.kind.Submessage? && !IsArray(field.rule)
    ensures DefaultSlot(field).values == [Record(DefaultMessage(field.kind.desc))]
    ensures Present(field, DefaultSlot(field)) == Record(DefaultMessage(field.kind.desc))
    ensures field.rule.OneOf? ==> !DefaultSlot(field).has
  {
    assert InitialValue(field) == DefaultValue(field.kind) == Record(DefaultMessage(field.kind.desc));
  }

  /** A message in its initial state is ready for any other. */
  lemma {:induction false} DefaultIsReady(desc: Desc, m: Message)
    requires MessageHasShape(desc, m)
    ensures Ready(desc, DefaultMessage(desc), m)
    decreases m
  {
    var r := DefaultMessage(desc);
    forall i | 0 <= i < |m.slots| && Comes(desc, m, i) ensures SlotReady(desc.fields[i], r.slots[i], m.slots[i]) {
      var field, a := desc.fields[i], m.slots[i];
      assert SlotHasShape(field, a);
      if !IsArray(field.rule) && field.kind.Submessage? {
        assert HasShape(field.kind, a.values[0]);
        ValueSmaller(m, i);
        SubmessageDefault(field);
        DefaultIsReady(field.kind.desc, a.values[0].message);
      }
    }
  }

  /** Merged into the initial state, it is what was written, and the initial state for the rest. */
  lemma {:induction false} MergedIsDecoded(desc: Desc, m: Message, r: Message)
    requires DescOk(desc) && MessageHasShape(desc, m) && MergedMessage(desc, DefaultMessage(desc), m, r)
    ensures DecodedMessage(desc, m, r)
    decreases m
  {
    forall i | 0 <= i < |m.slots| ensures DecodedField(desc, m, i, r.slots[i]) {
      var field, a, b := desc.fields[i], m.slots[i], r.slots[i];
      assert MergedField(desc, DefaultMessage(desc), m, i, b) && SlotHasShape(field, a) && FieldOk(field);
      DefaultSlotIsInitial(field);
      if Comes(desc, m, i) && !IsArray(field.rule) && field.kind.Submessage? {
        assert HasShape(field.kind, a.values[0]) && KindOk(field.kind);
        ValueSmaller(m, i);
        SubmessageDefault(field);
        assert MergedSlot(field, DefaultSlot(field), a, b);
        assert MergedValue(field.kind, Present(field, DefaultSlot(field)), a.values[0], b.values[0]);
        MergedIsDecoded(field.kind.desc, a.values[0].message, b.values[0].message);
        assert DecodedValue(field.kind, a.values[0], b.values[0]);
      }
    }
  }

  // ----- when that is the message -----

  ghost predicate ValueKept(kind: Kind, v: Value)
    requires HasShape(kind, v)
    decreases v
  {
    kind.Submessage? ==> MessageKept(kind.desc, v.message)
  }

  /** A proto3 field that is omitted because it is zero has zero for its default, too. */
  ghost predicate FieldKept(desc: Desc, m: Message, i: nat)
    requires MessageHasShape(desc, m) && i < |m.slots|
    decreases m, 0
  {
    var field, slot := desc.fields[i], m.slots[i];
    if (field.rule.Optional? || field.rule.OneOf?) && !slot.has then true
    else if field.rule.Singular? && !field.kind.Submessage? && !IsWritten(desc, m, i) then
      assert SlotHasShape(field, slot);
      field.init.Some? ==> SameValue(field.kind, slot.values[0], field.init.value)
    else
      assert SlotHasShape(field, slot); forall j :: 0 <= j < |slot.values| ==> ValueKept(field.kind, slot.values[j])
  }

  /** No zero is lost: wherever a proto3 field is zero, its descriptor gives it no other default. */
  ghost predicate MessageKept(desc: Desc, m: Message)
    requires MessageHasShape(desc, m)
    decreases m, 1
  {
    forall i :: 0 <= i < |m.slots| ==> FieldKept(desc, m, i)
  }

  lemma {:induction false} DecodedValueIsSame(kind: Kind, v: Value, w: Value)
    requires KindOk(kind) && HasShape(kind, v) && ValueOk(kind, v) && DecodedValue(kind, v, w)
    ensures SameValue(kind, v, w) <==> ValueKept(kind, v)
    decreases v
  {
    if kind.Submessage? {
      DecodedIsSame(kind.desc, v.message, w.message);
    }
  }

  lemma {:induction false} DecodedFieldIsSame(desc: Desc, m: Message, i: nat, b: Slot)
    requires DescOk(desc) && MessageHasShape(desc, m) && MessageOk(desc, m) && i < |m.slots|
    requires DecodedField(desc, m, i, b)
    ensures SameSlot(desc.fields[i], m.slots[i], b) <==> FieldKept(desc, m, i)
    decreases m, 1
  {
    var field, slot := desc.fields[i], m.slots[i];
    assert SlotHasShape(field, slot) && SlotOk(field, slot) && FieldOk(field);
    if IsWritten(desc, m, i) {
      assert DecodedSlot(field, slot, b) && DecodedValues(field, slot, b);
      forall j | 0 <= j < |slot.values|
        ensures SameValue(field.kind, slot.values[j], b.values[j]) <==> ValueKept(field.kind, slot.values[j])
      {
        assert HasShape(field.kind, slot.values[j]) && ValueOk(field.kind, slot.values[j]);
        assert DecodedValue(field.kind, slot.values[j], b.values[j]);
        DecodedValueIsSame(field.kind, slot.values[j], b.values[j]);
      }
      assert SameSlot(field, slot, b) <==> SameValues(field, slot, b);
    } else if field.rule.Singular? && field.kind.Submessage? {
      OmittedIsSame(desc, m, i, b);
    } else if field.rule.Singular? && field.init.None? {
      ZeroIsInitial(field.kind, slot.values[0], b.values[0]);
    }
  }

  /** A submessage that is omitted as default. */
  lemma {:induction false} OmittedIsSame(desc: Desc, m: Message, i: nat, b: Slot)
    requires DescOk(desc) && MessageHasShape(desc, m) && MessageOk(desc, m) && i < |m.slots| && IsDefault(desc, m, i)
    requires desc.fields[i].rule.Singular? && desc.fields[i].kind.Submessage? && IsInitialSlot(desc.fields[i], b)
    ensures SameSlot(desc.fields[i], m.slots[i], b) <==> FieldKept(desc, m, i)
    decreases m, 0
  {
    var field, slot := desc.fields[i], m.slots[i];
    assert SlotHasShape(field, slot) && SlotOk(field, slot) && FieldOk(field);
    var v := slot.values[0];
    assert HasShape(field.kind, v) && ValueOk(field.kind, v) && KindOk(field.kind);
    var inner, w := field.kind.desc, b.values[0];
    ValueSmaller(m, i);
    assert IsInitialValue(field.kind, w);
    AllDefaultIsDecoded(inner, v.message, w.message);
    DecodedIsSame(inner, v.message, w.message);
    assert SameValue(field.kind, v, w) <==> ValueKept(field.kind, v);
  }

  /** Of a message of defaults nothing is written. */
  lemma AllDefaultIsDecoded(desc: Desc, m: Message, r: Message)
    requires DescOk(desc) && MessageHasShape(desc, m) && AllDefault(desc, m) && IsInitialMessage(desc, r)
    ensures DecodedMessage(desc, m, r)
  {
    forall i | 0 <= i < |m.slots| ensures DecodedField(desc, m, i, r.slots[i]) {
      assert SlotHasShape(desc.fields[i], m.slots[i]) && IsDefault(desc, m, i);
    }
  }

  /** What was decoded is the message exactly when no zero is lost. */
  lemma {:induction false} DecodedIsSame(desc: Desc, m: Message, r: Message)
    requires DescOk(desc) && MessageHasShape(desc, m) && MessageOk(desc, m) && DecodedMessage(desc, m, r)
    ensures SameMessage(desc, m, r) <==> MessageKept(desc, m)
    decreases m, 2
  {
    forall i | 0 <= i < |m.slots|
      ensures SameSlot(desc.fields[i], m.slots[i], r.slots[i]) <==> FieldKept(desc, m, i)
    {
      DecodedFieldIsSame(desc, m, i, r.slots[i]);
    }
  }

  // ----- descriptors that lose no zero -----

  ghost predicate KindPlain(kind: Kind)
    decreases kind
  {
    kind.Submessage? ==> DescPlain(kind.desc)
  }

  /** No proto3 field has a default value of its own, which that language does not know. */
  ghost predicate DescPlain(desc: Desc)
    decreases desc
  {
    forall i :: 0 <= i < |desc.fields| ==> FieldPlain(desc.fields[i])
  }

  ghost predicate FieldPlain(field: Field)
    decreases field
  {
    (field.rule.Singular? ==> field.init.None?) && KindPlain(field.kind)
  }

  lemma {:induction false} PlainIsKept(desc: Desc, m: Message)
    requires DescPlain(desc) && MessageHasShape(desc, m)
    ensures MessageKept(desc, m)
    decreases m
  {
    forall i | 0 <= i < |m.slots| ensures FieldKept(desc, m, i) {
      var field, slot := desc.fields[i], m.slots[i];
      assert SlotHasShape(field, slot) && FieldPlain(field);
      forall j | 0 <= j < |slot.values| ensures ValueKept(field.kind, slot.values[j]) {
        assert HasShape(field.kind, slot.values[j]);
        if field.kind.Submessage? {
          assert KindPlain(field.kind) && DescPlain(field.kind.desc);
          assert slot < m && slot.values[j] < slot;
          PlainIsKept(field.kind.desc, slot.values[j].message);
        }
      }
    }
  }

  /** A zero value is what a field without a default of its own begins with. */
  lemma ZeroIsInitial(kind: Kind, v: Value, w: Value)
    requires HasShape(kind, v) && !kind.Submessage? && IsInitialValue(kind, w)
    requires match kind
             case Bytes(_) => v.bytes == []
             case Str(_) => CString(v.bytes, 1) == []
             case FixedBytes(size) => size == 0
             case Submessage(_) => true
             case _ => v.n == 0
    ensures SameValue(kind, v, w)
  {
  }
}
