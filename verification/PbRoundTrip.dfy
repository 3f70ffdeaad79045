/** Encoding a message with nanopb and decoding it again. */
module PbRoundTrip {
  import opened Common
  import opened Bytes
  import opened Coding
  import opened PbTypes
  import opened PbRestore
  import opened PbWire
  import opened PbCanonical
  import opened PbWritten
  import opened PbEncode
  import opened PbDecode
  import opened PbBounds
  import opened Formats

  /** For every descriptor table and every message whose encoding has a size that fits 32 bits, when the buffer is large
      enough: decoding what was encoded succeeds exactly when no string that was written fills its array.  Then it gives
      what was written and defaults for the rest, and that is the message exactly when no zero of a proto3 field is lost
      to another default: every present field is restored, and what was absent is absent. */
  method RoundTrip(desc: Desc, m: Message, room: nat)
      returns (sized: bool, size: nat, encoded: bool, decoded: bool, r: Message)
    requires DescOk(desc) && MessageHasShape(desc, m) && MessageOk(desc, m)
    ensures sized <==> EncodeMessage(desc, m).Ok?
    ensures sized <==> MessageWritable(desc, m)
    ensures sized ==> size == |EncodeMessage(desc, m).bytes|
    ensures encoded <==> sized && size <= room
    ensures encoded && size < TWO_TO_32 ==>
              && (decoded <==> MessageReadable(desc, m))
              && (decoded ==> DecodedMessage(desc, m, r) && (SameMessage(desc, m, r) <==> MessageKept(desc, m)))
  {
    hide DescOk, MessageHasShape, MessageOk, EncodeMessage, SameMessage, DecodedMessage, MessageReadable, MessageKept,
         EncodesMessage, MessageWritable;
    var bytes;
    sized, size, encoded, bytes := SizeThenEncode(desc, m, room);
    decoded, r := false, m;
    if encoded {
      if size < TWO_TO_32 {
        MessageIsMessage(desc, m, bytes);
      }
      decoded, r := Decode(bytes, desc, m, true);
      if decoded && size < TWO_TO_32 {
        DecodedIsSame(desc, m, r);
      }
    }
  }

  /** The same for a message in any form in which it may come: units in any order, unknown and superseded ones between
      them, at any depth.  One that lacks what the decoder insists on is refused. */
  method ReadAnyForm(input: seq<byte>, desc: Desc, ghost m: Message, ghost complete: bool)
      returns (ok: bool, r: Message)
    requires DescOk(desc) && ExpectsMessage(input, desc, m, complete)
    ensures ok <==> complete && MessageReadable(desc, m)
    ensures ok ==> (SameMessage(desc, m, r) <==> MessageKept(desc, m))
    ensures ok && DescFits(desc) ==> MessageFits(desc, r)
  {
    hide DescOk, MessageHasShape, MessageOk, SameMessage, DecodedMessage, MessageReadable, MessageKept, EncodesMessage;
    ok, r := Decode(input, desc, m, complete);
    if ok {
      DecodedIsSame(desc, m, r);
    }
  }

  const FULL_FIELD := Field(1, Required, Str(1), None)
  const FULL_SLOT := Slot(false, [Blob([ByteOf(97)])])
  const FULL_DESC := Desc([FULL_FIELD])
  const FULL := Message([FULL_SLOT])

  lemma FullText()
    ensures CString([ByteOf(97)], 1) == [ByteOf(97)]
  {
    ByteRoundTrip(97);
    hide ByteOf;
    var b := ByteOf(97);
    assert !IsNul(b);
    assert CString([b], 1) == [b] + CString([], 0);
  }

  lemma FullSlot()
    ensures SlotHasShape(FULL_FIELD, FULL_SLOT) && SlotOk(FULL_FIELD, FULL_SLOT) && !SlotReadable(FULL_FIELD, FULL_SLOT)
    ensures EncodeTagged(FULL_FIELD, FULL_SLOT, 0) == Ok([ByteOf(10), ByteOf(1), ByteOf(97)])
  {
    FullText();
    assert Coding.Varint(10) == [ByteOf(10)] && Coding.Varint(1) == [ByteOf(1)];
    hide ByteOf, CString, Coding.Varint;
    assert HasShape(Str(1), FULL_SLOT.values[0]) && !ValueReadable(Str(1), FULL_SLOT.values[0]);
  }

  lemma FullMessage()
    ensures DescOk(FULL_DESC) && MessageHasShape(FULL_DESC, FULL) && MessageOk(FULL_DESC, FULL)
    ensures !MessageReadable(FULL_DESC, FULL)
    ensures EncodeMessage(FULL_DESC, FULL) == Ok([ByteOf(10), ByteOf(1), ByteOf(97)])
  {
    FullSlot();
    hide ByteOf, SlotHasShape, SlotOk, SlotReadable, EncodeTagged;
    assert IsWritten(FULL_DESC, FULL, 0);
    assert EncodeFrom(FULL_DESC, FULL, 1) == Ok([]);
    assert EncodeField(FULL_DESC, FULL, 0) == Ok([ByteOf(10), ByteOf(1), ByteOf(97)]);
  }

  /** A string of one character in an array of one byte: the encoder writes it and the decoder refuses it. */
  method FullStringIsRefused() returns (encoded: bool, decoded: bool)
    ensures encoded && !decoded
  {
    FullMessage();
    hide DescOk, MessageHasShape, MessageOk, EncodeMessage, SameMessage, MessageReadable;
    var sized, size, r;
    sized, size, encoded, decoded, r := RoundTrip(FULL_DESC, FULL, 3);
  }

  const ZERO_FIELD := Field(1, Singular, UVarint(4), Some(Number(5)))
  const ZERO_SLOT := Slot(false, [Number(0)])
  const ZERO_DESC := Desc([ZERO_FIELD])
  const ZERO := Message([ZERO_SLOT])

  lemma ZeroMessage()
    ensures DescOk(ZERO_DESC) && MessageHasShape(ZERO_DESC, ZERO) && MessageOk(ZERO_DESC, ZERO)
    ensures EncodeMessage(ZERO_DESC, ZERO) == Ok([])
    ensures MessageReadable(ZERO_DESC, ZERO) && !MessageKept(ZERO_DESC, ZERO)
  {
    assert HasShape(UVarint(4), Number(0)) && HasShape(UVarint(4), Number(5));
    assert SlotHasShape(ZERO_FIELD, ZERO_SLOT) && FieldOk(ZERO_FIELD) && SlotOk(ZERO_FIELD, ZERO_SLOT);
    assert !IsWritten(ZERO_DESC, ZERO, 0);
    assert EncodeFrom(ZERO_DESC, ZERO, 1) == Ok([]) && EncodeField(ZERO_DESC, ZERO, 0) == Ok([]);
    assert !FieldKept(ZERO_DESC, ZERO, 0);
  }

  /** A proto3 number that is 0 and has 5 for its default: nothing is written, and it does not come back as 0. */
  method ZeroIsLost() returns (encoded: bool, decoded: bool, r: Message)
    ensures encoded && decoded && !SameMessage(ZERO_DESC, ZERO, r)
  {
    ZeroMessage();
    hide DescOk, MessageHasShape, MessageOk, EncodeMessage, SameMessage, DecodedMessage, MessageReadable, MessageKept;
    var sized, size;
    sized, size, encoded, decoded, r := RoundTrip(ZERO_DESC, ZERO, 0);
  }

  const SEVEN_FIELD := Field(1, Singular, UVarint(4), None)
  const SEVEN_SLOT := Slot(false, [Number(7)])
  const SEVEN_DESC := Desc([SEVEN_FIELD])
  const SEVEN := Message([SEVEN_SLOT])

  lemma SevenMessage()
    ensures DescOk(SEVEN_DESC) && MessageHasShape(SEVEN_DESC, SEVEN) && MessageOk(SEVEN_DESC, SEVEN)
    ensures EncodeMessage(SEVEN_DESC, SEVEN) == Ok([8, 7]) && MessageReadable(SEVEN_DESC, SEVEN)
  {
    DigitVarints();
    hide Coding.Varint;
    assert HasShape(UVarint(4), Number(7));
    assert SlotHasShape(SEVEN_FIELD, SEVEN_SLOT) && FieldOk(SEVEN_FIELD) && SlotOk(SEVEN_FIELD, SEVEN_SLOT);
    assert EncodeTagged(SEVEN_FIELD, SEVEN_SLOT, 0) == Ok([8, 7]);
    hide EncodeTagged;
    assert IsWritten(SEVEN_DESC, SEVEN, 0);
    assert EncodeFrom(SEVEN_DESC, SEVEN, 1) == Ok([]) && EncodeField(SEVEN_DESC, SEVEN, 0) == Ok([8, 7]);
  }

  /** An unknown 64-bit field, whose bytes could be taken for fields, before a field of the descriptor. */
  lemma UnknownBefore()
    ensures DescOk(SEVEN_DESC) && MessageReadable(SEVEN_DESC, SEVEN)
    ensures ExpectsMessage([0x49, 1, 2, 3, 4, 8, 5, 0, 0, 8, 7], SEVEN_DESC, SEVEN, true)
  {
    SevenMessage();
    UnknownTag();
    hide EncodeMessage, MessageHasShape, MessageOk, DescOk, TagBytes, IsUnknown, MessageReadable, Encodes;
    MessageIsMessage(SEVEN_DESC, SEVEN, [8, 7]);
    assert Partway(SEVEN_DESC, SEVEN, Zeros(1));
    UnknownMayCome(SEVEN_DESC, SEVEN, Zeros(1), [8, 7], true, 9, 1, UNKNOWN);
    assert [0x49] + UNKNOWN + [8, 7] == [0x49, 1, 2, 3, 4, 8, 5, 0, 0, 8, 7];
  }

  const UNKNOWN: seq<byte> := [1, 2, 3, 4, 8, 5, 0, 0]

  lemma UnknownTag()
    ensures TagBytes(9, 1) == [0x49] && IsUnknown(SEVEN_DESC, 9, 1, UNKNOWN)
  {
    assert ByteOf(73) == 0x49;
    hide ByteOf;
    assert Coding.Varint(73) == [ByteOf(73)];
  }

  method UnknownIsSkipped() returns (decoded: bool, r: Message)
    ensures decoded && |r.slots| == 1 && r.slots[0].values == [Number(7)]
  {
    UnknownBefore();
    decoded, r := Decode([0x49, 1, 2, 3, 4, 8, 5, 0, 0, 8, 7], SEVEN_DESC, SEVEN, true);
    SevenIsDecoded(r);
  }

  lemma SevenIsDecoded(r: Message)
    requires MessageHasShape(SEVEN_DESC, SEVEN) && DecodedMessage(SEVEN_DESC, SEVEN, r)
    ensures |r.slots| == 1 && r.slots[0].values == [Number(7)]
  {
    assert IsWritten(SEVEN_DESC, SEVEN, 0);
    assert DecodedField(SEVEN_DESC, SEVEN, 0, r.slots[0]);
    assert DecodedSlot(SEVEN_FIELD, SEVEN_SLOT, r.slots[0]);
    assert DecodedValue(UVarint(4), Number(7), r.slots[0].values[0]);
  }
}
