/** Literal encodings of nanopb (pb_encode.c): each kind of value, each wire type, and a message. */
module PbExamples {
  import opened Common
  import opened Bytes
  import opened Coding
  import opened PbTypes
  import opened Formats

  lemma Tags()
    ensures TagBytes(1, WireType(Bool)) == [0x08] && TagBytes(1, WireType(Varint(4))) == [0x08]
    ensures TagBytes(1, WireType(UVarint(4))) == [0x08] && TagBytes(1, WireType(SVarint(4))) == [0x08]
    ensures TagBytes(1, WireType(Fixed64)) == [0x09]
    ensures TagBytes(1, WireType(Bytes(4))) == [0x0a] && TagBytes(1, WireType(Str(4))) == [0x0a]
    ensures TagBytes(1, WireType(FixedBytes(4))) == [0x0a] && TagBytes(1, WireType(Submessage(Desc([])))) == [0x0a]
    ensures TagBytes(1, WireType(Fixed32)) == [0x0d]
    ensures TagBytes(16, WireType(Bool)) == [0x80, 0x01]
  {
    DigitVarints();
    TagNumbers();
    hide ByteOf;
    assert Coding.Varint(128) == [ByteOf(128)] + Coding.Varint(1);
  }

  lemma TagNumbers()
    ensures ByteOf(10) == 0x0a && ByteOf(13) == 0x0d && ByteOf(128) == 0x80
  {
    BitValues();
    hide ByteOf, NatOf;
    BitsAdd(8, 2);
    BitsAdd(8, 4);
    BitsAdd(12, 1);
    NatRoundTrip(10);
    NatRoundTrip(13);
    NatRoundTrip(128);
  }

  ghost predicate EncodesAs(kind: Kind, v: Value, bytes: seq<byte>) {
    HasShape(kind, v) && EncodeValue(kind, v) == Ok(bytes)
  }

  lemma Numbers()
    ensures EncodesAs(Bool, Number(1), [1]) && EncodesAs(Bool, Number(0), [0])
    ensures EncodesAs(UVarint(4), Number(150), [0x96, 0x01])
    ensures EncodesAs(SVarint(4), Number(0), [0]) && EncodesAs(SVarint(4), Number(-1), [1])
    ensures EncodesAs(SVarint(4), Number(1), [2]) && EncodesAs(SVarint(4), Number(-2), [3])
  {
    DigitVarints();
    Varint150();
    hide Coding.Varint;
  }

  lemma OneGroup(v: nat)
    requires v >= 128
    ensures Coding.Varint(v) == [ByteOf(128 + v % 128)] + Coding.Varint(v / 128)
  {
  }

  lemma Varint150()
    ensures Coding.Varint(150) == [0x96, 0x01]
  {
    DigitVarints();
    Byte150();
    OneGroup(150);
    hide ByteOf, Coding.Varint;
  }

  lemma Byte150()
    ensures ByteOf(150) == 0x96
  {
    BitValues();
    hide ByteOf, NatOf;
    BitsAdd(0x80, 0x10);
    BitsAdd(0x90, 0x04);
    BitsAdd(0x94, 0x02);
    NatRoundTrip(0x96);
  }

  /** Ten bytes for a negative number of any width. */
  lemma MinusOne(width: nat)
    requires IsWidth(width)
    ensures EncodesAs(Varint(width), Number(-1), [0xff, 0xff, 0xff, 0xff, 0xff, 0xff, 0xff, 0xff, 0xff, 0x01])
  {
    AllBits();
    hide Coding.Varint;
    assert HasShape(Varint(width), Number(-1));
    assert EncodeValue(Varint(width), Number(-1)) == Ok(Coding.Varint(Unsigned64(-1)));
  }

  lemma AllBits()
    ensures Coding.Varint(0xffff_ffff_ffff_ffff) == [0xff, 0xff, 0xff, 0xff, 0xff, 0xff, 0xff, 0xff, 0xff, 0x01]
  {
    hide Coding.Varint;
    OnesAndOne(9);
    PowersOf128();
    hide ByteOf;
    assert Power128(10) == 128 * Power128(9);
    assert seq(9, _ => 0xff as byte) == [0xff, 0xff, 0xff, 0xff, 0xff, 0xff, 0xff, 0xff, 0xff];
  }

  lemma {:induction false} OnesAndOne(k: nat)
    ensures Coding.Varint(2 * Power128(k) - 1) == seq(k, _ => 0xff) + [1]
  {
    hide Coding.Varint;
    if k == 0 {
      DigitVarints();
    } else {
      var v := 2 * Power128(k - 1) - 1;
      OnesAndOne(k - 1);
      SevenOnesMore(v);
      MoreOnes(k);
    }
  }

  lemma SevenOnesMore(v: nat)
    requires v > 0
    ensures Coding.Varint(128 * v + 127) == [0xff] + Coding.Varint(v)
  {
    LastByte();
    hide ByteOf;
    OneGroup(128 * v + 127);
  }

  lemma LastByte()
    ensures ByteOf(255) == 0xff
  {
  }

  lemma MoreOnes(k: nat)
    requires k > 0
    ensures seq(k, _ => 0xff as byte) + [1] == [0xff] + (seq(k - 1, _ => 0xff as byte) + [1])
  {
  }

  /** The lowest byte first; Formats.FixedDigits says it of every byte. */
  lemma FixedNumbers()
    ensures EncodesAs(Fixed32, Number(1), [1, 0, 0, 0])
    ensures EncodesAs(Fixed64, Number(2), [2, 0, 0, 0, 0, 0, 0, 0])
  {
    SmallNumbers();
    hide ByteOf, Fixed;
    ZeroRest(1, 4);
    ZeroRest(2, 8);
  }

  /** Of a string, what comes before the NUL. */
  lemma Strings()
    ensures EncodesAs(Bytes(4), Blob([7, 0, 8]), [3, 7, 0, 8]) && EncodesAs(FixedBytes(2), Blob([0, 0]), [2, 0, 0])
    ensures EncodesAs(Str(8), Blob([0x61, 0x62, 0, 0x63]), [2, 0x61, 0x62])
  {
    DigitVarints();
    hide Coding.Varint;
    var s: seq<byte> := [0x61, 0x62, 0, 0x63];
    assert CString(s[1..][1..], 6) == [];
    assert CString(s[1..], 7) == [0x62];
    assert CString(s, 8) == [0x61, 0x62];
  }

  const INNER := Desc([Field(1, Required, UVarint(4), None)])
  const OUTER := Desc([Field(1, Required, UVarint(4), None), Field(2, Repeated(4), UVarint(4), None),
                       Field(3, Repeated(4), Str(4), None), Field(4, Optional, Submessage(INNER), None),
                       Field(5, Optional, Bool, None)])
  const INNER_SLOT := Slot(false, [Number(150)])
  const INNER_MESSAGE := Message([INNER_SLOT])
  const PACKED_SLOT := Slot(false, [Number(3), Number(150)])
  const TEXT_SLOT := Slot(false, [Blob([0x61]), Blob([])])
  const INNER_FIELD := Slot(true, [Record(INNER_MESSAGE)])
  const OUTER_MESSAGE := Message([INNER_SLOT, PACKED_SLOT, TEXT_SLOT, INNER_FIELD, Slot(false, [Number(1)])])

  /** A number, a packed array, an array of strings, a submessage, and a field that is absent. */
  lemma MessageBytes()
    ensures MessageHasShape(OUTER, OUTER_MESSAGE)
    ensures EncodeMessage(OUTER, OUTER_MESSAGE) ==
            Ok([0x08, 0x96, 0x01, 0x12, 3, 3, 0x96, 0x01, 0x1a, 1, 0x61, 0x1a, 0, 0x22, 3, 0x08, 0x96, 0x01])
  {
    Fields();
    hide MessageHasShape, EncodeField, EncodeMessage;
    FourFields(OUTER, OUTER_MESSAGE, [0x08, 0x96, 0x01], [0x12, 3, 3, 0x96, 0x01], [0x1a, 1, 0x61, 0x1a, 0],
               [0x22, 3, 0x08, 0x96, 0x01]);
  }

  lemma FourFields(desc: Desc, m: Message, a: seq<byte>, b: seq<byte>, c: seq<byte>, d: seq<byte>)
    requires MessageHasShape(desc, m) && |m.slots| == 5 && EncodeField(desc, m, 4) == Ok([])
    requires EncodeField(desc, m, 0) == Ok(a) && EncodeField(desc, m, 1) == Ok(b)
    requires EncodeField(desc, m, 2) == Ok(c) && EncodeField(desc, m, 3) == Ok(d)
    ensures EncodeMessage(desc, m) == Ok(a + b + c + d)
  {
    hide MessageHasShape, EncodeField, EncodeMessage, Cat;
    FiveFields(desc, m);
    CatFour(a, b, c, d);
  }

  lemma CatFour(a: seq<byte>, b: seq<byte>, c: seq<byte>, d: seq<byte>)
    ensures Cat(Ok(a), Cat(Ok(b), Cat(Ok(c), Cat(Ok(d), Cat(Ok([]), Ok([])))))) == Ok(a + b + c + d)
  {
    assert d + ([] + []) == d;
    assert a + (b + (c + d)) == a + b + c + d;
  }

  lemma Fields()
    ensures MessageHasShape(OUTER, OUTER_MESSAGE)
    ensures EncodeField(OUTER, OUTER_MESSAGE, 0) == Ok([0x08, 0x96, 0x01])
    ensures EncodeField(OUTER, OUTER_MESSAGE, 1) == Ok([0x12, 3, 3, 0x96, 0x01])
    ensures EncodeField(OUTER, OUTER_MESSAGE, 2) == Ok([0x1a, 1, 0x61, 0x1a, 0])
    ensures EncodeField(OUTER, OUTER_MESSAGE, 3) == Ok([0x22, 3, 0x08, 0x96, 0x01])
    ensures EncodeField(OUTER, OUTER_MESSAGE, 4) == Ok([])
  {
    OuterShape();
    Shapes();
    NumberField(OUTER.fields[0]);
    PackedField();
    TextField();
    InnerField();
    hide EncodeTagged, EncodeArray, EncodeField, SlotHasShape, MessageHasShape;
    FieldIs(OUTER, OUTER_MESSAGE, 0);
    FieldIs(OUTER, OUTER_MESSAGE, 1);
    FieldIs(OUTER, OUTER_MESSAGE, 2);
    FieldIs(OUTER, OUTER_MESSAGE, 3);
    FieldIs(OUTER, OUTER_MESSAGE, 4);
  }

  lemma OuterShape()
    ensures MessageHasShape(OUTER, OUTER_MESSAGE)
  {
    Shapes();
    hide SlotHasShape;
    assert |OUTER_MESSAGE.slots| == 5 == |OUTER.fields|;
  }

  /** A field that is required, optional or repeated. */
  lemma FieldIs(desc: Desc, m: Message, i: nat)
    requires MessageHasShape(desc, m) && i < |m.slots|
    requires var rule := desc.fields[i].rule; rule.Required? || rule.Optional? || rule.Repeated?
    ensures SlotHasShape(desc.fields[i], m.slots[i])
    ensures EncodeField(desc, m, i) ==
            if desc.fields[i].rule.Repeated? then EncodeArray(desc.fields[i], m.slots[i])
            else if desc.fields[i].rule.Optional? && !m.slots[i].has then Ok([])
            else EncodeTagged(desc.fields[i], m.slots[i], 0)
  {
    hide EncodeArray, EncodeTagged;
  }

  lemma FiveFields(d: Desc, m: Message)
    requires MessageHasShape(d, m) && |m.slots| == 5
    ensures EncodeMessage(d, m) == Cat(EncodeField(d, m, 0), Cat(EncodeField(d, m, 1), Cat(EncodeField(d, m, 2),
                                   Cat(EncodeField(d, m, 3), Cat(EncodeField(d, m, 4), Ok([]))))))
  {
    hide EncodeField, Cat, MessageHasShape;
    assert EncodeFrom(d, m, 5) == Ok([]);
    assert EncodeFrom(d, m, 4) == Cat(EncodeField(d, m, 4), EncodeFrom(d, m, 5));
    assert EncodeFrom(d, m, 3) == Cat(EncodeField(d, m, 3), EncodeFrom(d, m, 4));
    assert EncodeFrom(d, m, 2) == Cat(EncodeField(d, m, 2), EncodeFrom(d, m, 3));
    assert EncodeFrom(d, m, 1) == Cat(EncodeField(d, m, 1), EncodeFrom(d, m, 2));
  }

  lemma Shapes()
    ensures SlotHasShape(OUTER.fields[0], INNER_SLOT) && SlotHasShape(OUTER.fields[1], PACKED_SLOT)
    ensures SlotHasShape(OUTER.fields[2], TEXT_SLOT) && SlotHasShape(OUTER.fields[3], INNER_FIELD)
    ensures SlotHasShape(OUTER.fields[4], Slot(false, [Number(1)])) && MessageHasShape(INNER, INNER_MESSAGE)
  {
    assert HasShape(UVarint(4), Number(150)) && HasShape(UVarint(4), Number(3)) && HasShape(Bool, Number(1));
    assert HasShape(Str(4), Blob([0x61])) && HasShape(Str(4), Blob([]));
    assert SlotHasShape(INNER.fields[0], INNER_SLOT);
    assert MessageHasShape(INNER, INNER_MESSAGE);
    assert HasShape(Submessage(INNER), Record(INNER_MESSAGE));
  }

  lemma NumberField(field: Field)
    requires field.tag == 1 && field.kind == UVarint(4) && SlotHasShape(field, INNER_SLOT)
    ensures EncodeTagged(field, INNER_SLOT, 0) == Ok([0x08, 0x96, 0x01])
  {
    Tags();
    Varint150();
    hide TagBytes, Coding.Varint, SlotHasShape;
  }

  lemma PackedField()
    requires SlotHasShape(OUTER.fields[1], PACKED_SLOT)
    ensures EncodeArray(OUTER.fields[1], PACKED_SLOT) == Ok([0x12, 3, 3, 0x96, 0x01])
  {
    DigitVarints();
    Varint150();
    assert Coding.Varint(18) == [0x12] by {
      assert ByteOf(18) == 0x12;
    }
    hide Coding.Varint, SlotHasShape;
    var field := OUTER.fields[1];
    assert EncodePacked(field, PACKED_SLOT, 2) == Ok([]);
    assert EncodePacked(field, PACKED_SLOT, 1) == Ok([0x96, 0x01]);
    assert EncodePacked(field, PACKED_SLOT, 0) == Ok([3, 0x96, 0x01]);
  }

  lemma TextField()
    requires SlotHasShape(OUTER.fields[2], TEXT_SLOT)
    ensures EncodeArray(OUTER.fields[2], TEXT_SLOT) == Ok([0x1a, 1, 0x61, 0x1a, 0])
  {
    DigitVarints();
    assert Coding.Varint(26) == [0x1a] by {
      assert ByteOf(26) == 0x1a;
    }
    hide Coding.Varint, SlotHasShape;
    var field, text: seq<byte> := OUTER.fields[2], [0x61];
    assert text[1..] == [];
    assert CString(text, 4) == [0x61] && CString([], 4) == [];
    assert EncodeTagged(field, TEXT_SLOT, 0) == Ok([0x1a, 1, 0x61]);
    assert EncodeTagged(field, TEXT_SLOT, 1) == Ok([0x1a, 0]);
    assert EncodeUnpacked(field, TEXT_SLOT, 2) == Ok([]);
    assert EncodeUnpacked(field, TEXT_SLOT, 1) == Ok([0x1a, 0]);
    assert EncodeUnpacked(field, TEXT_SLOT, 0) == Ok([0x1a, 1, 0x61, 0x1a, 0]);
  }

  lemma InnerField()
    requires SlotHasShape(OUTER.fields[3], INNER_FIELD) && MessageHasShape(INNER, INNER_MESSAGE)
    ensures EncodeTagged(OUTER.fields[3], INNER_FIELD, 0) == Ok([0x22, 3, 0x08, 0x96, 0x01])
  {
    Shapes();
    DigitVarints();
    NumberField(INNER.fields[0]);
    assert Coding.Varint(34) == [0x22] by {
      assert ByteOf(34) == 0x22;
    }
    hide Coding.Varint, SlotHasShape, EncodeTagged;
    assert EncodeField(INNER, INNER_MESSAGE, 0) == Ok([0x08, 0x96, 0x01]);
    assert EncodeFrom(INNER, INNER_MESSAGE, 1) == Ok([]);
    assert EncodeMessage(INNER, INNER_MESSAGE) == Ok([0x08, 0x96, 0x01]);
    InnerTagged();
  }

  lemma InnerTagged()
    requires SlotHasShape(OUTER.fields[3], INNER_FIELD) && MessageHasShape(INNER, INNER_MESSAGE)
    ensures EncodeTagged(OUTER.fields[3], INNER_FIELD, 0) ==
            Cat(Ok(Coding.Varint(34)), Prefixed(EncodeMessage(INNER, INNER_MESSAGE)))
  {
    hide Coding.Varint, EncodeMessage, Prefixed;
  }
}
