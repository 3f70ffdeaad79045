/** What the encoder writes (pb_encode.c) is one of the forms in which a message may come: its units in the order of
the fields, numbers of arrays packed, and nothing between them. */
module PbCanonical {
  import opened Bytes
  import opened Coding
  import opened PbTypes
  import opened PbRestore
  import opened PbWire

  /** Each element of the array is a unit of its own. */
  predicate ByElement(field: Field) {
    IsArray(field.rule) && !IsPackable(field.kind)
  }

  ghost predicate Position(desc: Desc, m: Message, i: nat, j: nat) {
    && MessageHasShape(desc, m) && i <= |desc.fields|
    && (j > 0 ==> i < |desc.fields| && ByElement(desc.fields[i]) && j <= |m.slots[i].values|)
  }

  /** What is left to read from field `i`, element `j` on. */
  ghost function TailFrom(desc: Desc, m: Message, i: nat, j: nat): Encoded
    requires Position(desc, m, i, j)
  {
    if j == 0 then EncodeFrom(desc, m, i)
    else
      assert SlotHasShape(desc.fields[i], m.slots[i]);
      Cat(EncodeUnpacked(desc.fields[i], m.slots[i], j), EncodeFrom(desc, m, i + 1))
  }

  /** A unit begins here. */
  ghost predicate UnitAt(desc: Desc, m: Message, i: nat, j: nat) {
    && Position(desc, m, i, j) && i < |desc.fields| && IsWritten(desc, m, i)
    && j < |m.slots[i].values|
    && (!ByElement(desc.fields[i]) ==> j == 0)
  }

  /** The unit without its tag. */
  ghost function Payload(desc: Desc, m: Message, i: nat, j: nat): Encoded
    requires UnitAt(desc, m, i, j)
  {
    var field, slot := desc.fields[i], m.slots[i];
    assert SlotHasShape(field, slot);
    if IsArray(field.rule) && IsPackable(field.kind) then Prefixed(EncodePacked(field, slot, 0))
    else EncodeValue(field.kind, slot.values[j])
  }

  function UnitWireType(field: Field): nat {
    if IsArray(field.rule) && IsPackable(field.kind) then WIRE_STRING else WireType(field.kind)
  }

  /** The position after a unit. */
  function NextField(field: Field, i: nat): nat {
    if ByElement(field) then i else i + 1
  }

  function NextElement(field: Field, j: nat): nat {
    if ByElement(field) then j + 1 else 0
  }

  /** What is left is a tag, a payload, and the rest. */
  lemma UnitSplits(desc: Desc, m: Message, i: nat, j: nat)
    requires UnitAt(desc, m, i, j) && TailFrom(desc, m, i, j).Ok?
    ensures var field := desc.fields[i]; var i', j' := NextField(field, i), NextElement(field, j);
            && Position(desc, m, i', j')
            && TailFrom(desc, m, i, j) ==
               Cat(Ok(TagBytes(field.tag, UnitWireType(field))), Cat(Payload(desc, m, i, j), TailFrom(desc, m, i', j')))
  {
    hide EncodeValue, EncodePacked, TagBytes, Prefixed, IsWritten;
    var field, slot := desc.fields[i], m.slots[i];
    assert SlotHasShape(field, slot);
    var tag, payload, after := Ok(TagBytes(field.tag, UnitWireType(field))), Payload(desc, m, i, j),
        EncodeFrom(desc, m, i + 1);
    if ByElement(field) {
      var more := EncodeUnpacked(field, slot, j + 1);
      assert EncodeUnpacked(field, slot, j) == Cat(Cat(tag, payload), more);
      assert j == 0 ==> EncodeField(desc, m, i) == EncodeUnpacked(field, slot, 0);
      CatAssociates(Cat(tag, payload), more, after);
      CatAssociates(tag, payload, Cat(more, after));
    } else {
      assert EncodeField(desc, m, i) == Cat(tag, payload);
      CatAssociates(tag, payload, after);
    }
  }

  /** How many values come before field `i`, element `j`. */
  ghost function DoneAt(desc: Desc, m: Message, i: nat, j: nat): seq<nat>
    requires Position(desc, m, i, j)
  {
    seq(|m.slots|, k requires 0 <= k < |m.slots| => if k < i then Total(desc, m, k) else if k == i then j else 0)
  }

  lemma DoneIsPartway(desc: Desc, m: Message, i: nat, j: nat)
    requires Position(desc, m, i, j)
    ensures Partway(desc, m, DoneAt(desc, m, i, j))
  {
    if i < |m.slots| && j > 0 {
      ArraysAreWritten(desc, m, i);
    }
  }

  lemma ShapeAt(desc: Desc, m: Message, i: nat)
    requires MessageHasShape(desc, m) && i < |m.slots|
    ensures |m.slots| == |desc.fields| && SlotHasShape(desc.fields[i], m.slots[i])
    ensures !desc.fields[i].rule.Repeated? && !desc.fields[i].rule.FixedCount? ==> |m.slots[i].values| == 1
  {
  }

  lemma ArraysAreWritten(desc: Desc, m: Message, i: nat)
    requires MessageHasShape(desc, m) && i < |m.slots| && IsArray(desc.fields[i].rule)
    ensures IsWritten(desc, m, i)
  {
  }

  /** An array that can be encoded is not too long. */
  lemma WithinLimit(desc: Desc, m: Message, i: nat)
    requires MessageHasShape(desc, m) && EncodeMessage(desc, m).Ok? && i < |m.slots|
    ensures IsArray(desc.fields[i].rule) ==> |m.slots[i].values| <= Limit(desc.fields[i].rule)
  {
    assert SlotHasShape(desc.fields[i], m.slots[i]);
    EveryFieldOk(desc, m, 0, i);
  }

  lemma {:induction false} EveryFieldOk(desc: Desc, m: Message, from: nat, i: nat)
    requires MessageHasShape(desc, m) && from <= i < |m.slots| && EncodeFrom(desc, m, from).Ok?
    ensures EncodeField(desc, m, i).Ok?
    decreases i - from
  {
    hide EncodeField;
    if from < i {
      EveryFieldOk(desc, m, from + 1, i);
    }
  }

  lemma {:induction false} RunIsPacked(field: Field, slot: Slot, j: nat)
    requires SlotHasShape(field, slot) && j <= |slot.values|
    ensures Run(field, slot, j, |slot.values|) == EncodePacked(field, slot, j)
    decreases |slot.values| - j
  {
    hide EncodeValue, HasShape;
    if j < |slot.values| {
      RunIsPacked(field, slot, j + 1);
    }
  }

  lemma TagNotEmpty(tag: nat, wireType: nat)
    ensures TagBytes(tag, wireType) != []
  {
  }

  /** The unit as the decoder may find it: `n` values. */
  lemma {:induction false} UnitIsUnit(desc: Desc, m: Message, i: nat, j: nat) returns (n: nat)
    requires DescOk(desc) && UnitAt(desc, m, i, j) && Payload(desc, m, i, j).Ok? && EncodeMessage(desc, m).Ok?
    requires |Payload(desc, m, i, j).bytes| < TWO_TO_32
    ensures IsUnit(desc, m, i, j, n, UnitWireType(desc.fields[i]), Payload(desc, m, i, j).bytes)
    ensures n == if ByElement(desc.fields[i]) then 1 else |m.slots[i].values| - j
    decreases m, 1
  {
    var field, slot := desc.fields[i], m.slots[i];
    ShapeAt(desc, m, i);
    WithinLimit(desc, m, i);
    assert FieldOk(field);
    if IsArray(field.rule) && IsPackable(field.kind) {
      n := |slot.values|;
      RunIsPacked(field, slot, 0);
    } else {
      n := 1;
      assert slot < m && slot.values[j] < slot;
      ValueIsValue(field.kind, slot.values[j], Payload(desc, m, i, j).bytes);
    }
  }

  lemma {:induction false} ValueIsValue(kind: Kind, v: Value, p: seq<byte>)
    requires KindOk(kind) && HasShape(kind, v) && EncodeValue(kind, v) == Ok(p) && |p| < TWO_TO_32
    ensures EncodesValue(kind, v, p)
    decreases v, 0
  {
    if kind.Submessage? {
      var s := EncodeMessage(kind.desc, v.message).bytes;
      MessageIsMessage(kind.desc, v.message, s);
      assert IsSized(p, s);
    }
  }

  /** What the encoder writes may come to the decoder. */
  lemma {:induction false} MessageIsMessage(desc: Desc, m: Message, bytes: seq<byte>)
    requires DescOk(desc) && MessageHasShape(desc, m) && EncodeMessage(desc, m) == Ok(bytes) && |bytes| < TWO_TO_32
    ensures EncodesMessage(desc, m, bytes, true)
    decreases m, |m.slots| + 3
  {
    TailIsTail(desc, m, 0, 0, bytes);
    assert DoneAt(desc, m, 0, 0) == Zeros(|m.slots|);
  }

  /** Of all fields before `i` all values have come, of the others none. */
  lemma InOrder(desc: Desc, m: Message, i: nat, j: nat)
    requires Position(desc, m, i, j) && i < |desc.fields|
    ensures OneAtATime(desc, DoneAt(desc, m, i, j), i)
  {
    var done := DoneAt(desc, m, i, j);
    forall k | 0 <= k < |done| && k != i && desc.fields[k].rule.FixedCount?
      ensures done[k] == 0 || done[k] == desc.fields[k].rule.count
    {
      ShapeAt(desc, m, k);
      ArraysAreWritten(desc, m, k);
    }
  }

  /** A unit before what may come. */
  lemma UnitComes(desc: Desc, m: Message, done: seq<nat>, i: nat, n: nat, wireType: nat, p: seq<byte>, rest: seq<byte>,
                  tail: seq<byte>)
    requires Partway(desc, m, done) && UnitFirst(desc, m, done, rest, i, n, wireType, p, tail)
    requires Partway(desc, m, done[i := done[i] + n]) && Encodes(desc, m, done[i := done[i] + n], tail, true)
    ensures Encodes(desc, m, done, rest, true)
  {
    assert i < |done|;
    hide UnitFirst, Partway, EndsHere, UnknownFirst, OldFirst;
  }

  lemma {:induction false} TailIsTail(desc: Desc, m: Message, i: nat, j: nat, rest: seq<byte>)
    requires DescOk(desc) && Position(desc, m, i, j) && EncodeMessage(desc, m).Ok?
    requires TailFrom(desc, m, i, j) == Ok(rest) && |rest| < TWO_TO_32
    ensures Partway(desc, m, DoneAt(desc, m, i, j)) && Encodes(desc, m, DoneAt(desc, m, i, j), rest, true)
    decreases m, |desc.fields| - i + 2, if i < |m.slots| && j <= |m.slots[i].values| then |m.slots[i].values| - j else 0
  {
    hide IsUnit, OneAtATime, Begins, IsUnknown, EncodeMessage, IsWritten, TagBytes, EncodeField, Encodes, EncodeFrom,
         UnitAt, TailFrom, Payload, DescOk, Total, HasShape, EncodeUnpacked;
    DoneIsPartway(desc, m, i, j);
    var done := DoneAt(desc, m, i, j);
    if i == |desc.fields| {
      NothingLeft(desc, m, i, j, rest);
    } else if UnitAt(desc, m, i, j) {
      var i', j', n, p, tail := UnitGoes(desc, m, i, j, rest);
      TailIsTail(desc, m, i', j', tail);
      UnitComes(desc, m, done, i, n, UnitWireType(desc.fields[i]), p, rest, tail);
    } else {
      FieldIsDone(desc, m, i, j, rest);
      TailIsTail(desc, m, i + 1, 0, rest);
    }
  }

  lemma NothingLeft(desc: Desc, m: Message, i: nat, j: nat, rest: seq<byte>)
    requires Position(desc, m, i, j) && i == |desc.fields| && TailFrom(desc, m, i, j) == Ok(rest)
    requires Partway(desc, m, DoneAt(desc, m, i, j))
    ensures Encodes(desc, m, DoneAt(desc, m, i, j), rest, true)
  {
    assert rest == [];
  }

  lemma {:induction false} UnitGoes(desc: Desc, m: Message, i: nat, j: nat, rest: seq<byte>)
    returns (i': nat, j': nat, n: nat, p: seq<byte>, tail: seq<byte>)
    requires DescOk(desc) && UnitAt(desc, m, i, j) && EncodeMessage(desc, m).Ok?
    requires TailFrom(desc, m, i, j) == Ok(rest) && |rest| < TWO_TO_32
    ensures i' == NextField(desc.fields[i], i) && j' == NextElement(desc.fields[i], j) && Position(desc, m, i', j')
    ensures (i' == i ==> j < j' <= |m.slots[i].values|) && |tail| < |rest|
    ensures TailFrom(desc, m, i', j') == Ok(tail)
    ensures Begins(rest, desc.fields[i].tag, UnitWireType(desc.fields[i]), p, tail)
    ensures var done := DoneAt(desc, m, i, j);
            && i < |done| && IsUnit(desc, m, i, done[i], n, UnitWireType(desc.fields[i]), p)
            && OneAtATime(desc, done, i)
            && DoneAt(desc, m, i', j') == done[i := done[i] + n]
    decreases m, 2
  {
    hide TagBytes, EncodeValue, EncodeFrom, EncodeUnpacked, EncodePacked, Prefixed, IsWritten, DescOk, EncodeMessage,
         IsUnit, OneAtATime;
    UnitSplits(desc, m, i, j);
    i', j' := NextField(desc.fields[i], i), NextElement(desc.fields[i], j);
    p, tail := Payload(desc, m, i, j).bytes, TailFrom(desc, m, i', j').bytes;
    TagNotEmpty(desc.fields[i].tag, UnitWireType(desc.fields[i]));
    n := UnitIsUnit(desc, m, i, j);
    InOrder(desc, m, i, j);
    assert DoneAt(desc, m, i', j') == DoneAt(desc, m, i, j)[i := j + n];
  }

  /** No value of the field is left. */
  lemma FieldIsDone(desc: Desc, m: Message, i: nat, j: nat, rest: seq<byte>)
    requires Position(desc, m, i, j) && i < |desc.fields| && !UnitAt(desc, m, i, j)
    requires TailFrom(desc, m, i, j) == Ok(rest)
    ensures TailFrom(desc, m, i + 1, 0) == Ok(rest) && DoneAt(desc, m, i + 1, 0) == DoneAt(desc, m, i, j)
  {
    ShapeAt(desc, m, i);
    var field, slot := desc.fields[i], m.slots[i];
    assert j == Total(desc, m, i);
    var after := EncodeFrom(desc, m, i + 1);
    if j == 0 {
      assert EncodeField(desc, m, i) == Ok([]);
    } else {
      assert EncodeUnpacked(field, slot, j) == Ok([]);
    }
    assert after.Ok? && [] + after.bytes == after.bytes;
  }
}
