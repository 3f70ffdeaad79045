/** The encoder of nanopb (pb_encode.c).  Every method works on a sizing stream and on a writing stream alike; a
submessage is encoded twice, first to find its size. */
module PbEncode {
  import opened Bytes
  import opened Coding
  import opened PbTypes
  import opened PbWritten

  /** `pb_ostream_t`: `sizing` stands for a null callback, `written` for what the callback put into the buffer. */
  datatype OStream = OStream(sizing: bool, written: seq<byte>, count: nat, max: nat)

  const SIZING := OStream(true, [], 0, 0)

  ghost predicate StreamValid(s: OStream) {
    !s.sizing ==> s.count <= s.max
  }

  function After(s: OStream, bytes: seq<byte>): OStream {
    s.(count := s.count + |bytes|, written := if s.sizing then s.written else s.written + bytes)
  }

  /** It works if there is something to write and room for it; a sizing stream only counts. */
  predicate Fits(s: OStream, e: Encoded) {
    e.Ok? && (s.sizing || s.count + |e.bytes| <= s.max)
  }

  /** The outcome of writing `e`: success exactly when it fits, and then exactly these bytes. */
  ghost predicate Writes(s: OStream, e: Encoded, ok: bool, s': OStream) {
    && (ok <==> Fits(s, e))
    && (ok ==> s' == After(s, e.bytes) && StreamValid(s'))
  }

  lemma WritesBoth(s: OStream, a: Encoded, s': OStream, b: Encoded, ok: bool, s'': OStream)
    requires Writes(s, a, true, s') && Writes(s', b, ok, s'')
    ensures Writes(s, Cat(a, b), ok, s'')
  {
    if ok {
      assert After(After(s, a.bytes), b.bytes) == After(s, a.bytes + b.bytes);
    }
  }

  lemma WritesNothing(s: OStream)
    requires StreamValid(s)
    ensures Writes(s, Ok([]), true, s)
  {
    assert After(s, []) == s;
  }

  lemma NothingWritten(s: OStream, ok: bool, s': OStream)
    requires StreamValid(s) && Writes(s, Ok([]), ok, s')
    ensures ok && s' == s
  {
    assert After(s, []) == s;
  }

  /** `pb_write` */
  method Write(s: OStream, buf: seq<byte>) returns (ok: bool, s': OStream)
    requires StreamValid(s)
    ensures Writes(s, Ok(buf), ok, s')
  {
    s' := s;
    if |buf| > 0 && !s.sizing {
      if s.count + |buf| > s.max {
        return false, s;
      }
      s' := s'.(written := s'.written + buf);
    }
    s' := s'.(count := s'.count + |buf|);
    return true, s';
  }

  /** `pb_write` without data, on a sizing stream. */
  method WriteSize(s: OStream, size: nat) returns (s': OStream)
    requires s.sizing
    ensures s' == s.(count := s.count + size)
  {
    return s.(count := s.count + size);
  }

  /** `pb_encode_varint` */
  method EncodeVarint(s: OStream, value: nat) returns (ok: bool, s': OStream)
    requires StreamValid(s)
    ensures Writes(s, Ok(Coding.Varint(value)), ok, s')
  {
    hide ByteOf, Writes, Coding.Varint, WithoutTopBit;
    VarintUnfolds(value);
    if value <= 0x7f {
      SmallVarint(value);
      ok, s' := Write(s, [ByteOf(value)]);
      return;
    }
    var buffer: seq<byte> := [];
    var v: nat := value;
    ghost var all := Coding.Varint(value);
    while v > 0
      invariant v <= value
      invariant v > 0 ==> buffer + Coding.Varint(v) == all
      invariant v == 0 ==> buffer != [] && buffer[..|buffer| - 1] + [WithoutTopBit(buffer[|buffer| - 1])] == all
    {
      VarintUnfolds(v);
      ghost var before := buffer;
      buffer := buffer + [ByteOf(v % 128 + 128)];
      v := v / 128;
      assert buffer[..|buffer| - 1] == before;
    }
    buffer := buffer[|buffer| - 1 := WithoutTopBit(buffer[|buffer| - 1])];
    assert buffer == all;
    ok, s' := Write(s, buffer);
  }

  lemma SmallVarint(v: nat)
    requires v < 128
    ensures Coding.Varint(v) == [ByteOf(v)]
  {
  }

  lemma VarintUnfolds(v: nat)
    ensures v >= 128 ==> Coding.Varint(v) == [ByteOf(v % 128 + 128)] + Coding.Varint(v / 128)
    ensures v < 128 ==> Coding.Varint(v) == [WithoutTopBit(ByteOf(v % 128 + 128))]
  {
    hide ByteOf, NatOf;
    ByteRoundTrip(v % 128 + 128);
  }

  /** `buffer[i-1] &= 0x7F` */
  function WithoutTopBit(b: byte): byte {
    ByteOf(NatOf(b) % 128)
  }

  /** `pb_encode_tag` */
  method EncodeTag(s: OStream, wireType: nat, tag: nat) returns (ok: bool, s': OStream)
    requires StreamValid(s) && wireType < 8
    ensures Writes(s, Ok(TagBytes(tag, wireType)), ok, s')
  {
    ok, s' := EncodeVarint(s, tag * 8 + wireType);
  }

  /** `pb_encode_tag_for_field` */
  method EncodeTagForField(s: OStream, field: Field) returns (ok: bool, s': OStream)
    requires StreamValid(s)
    ensures Writes(s, Ok(TagBytes(field.tag, WireType(field.kind))), ok, s')
  {
    var wireType;
    match field.kind {
      case Fixed32 => wireType := WIRE_32BIT;
      case Fixed64 => wireType := WIRE_64BIT;
      case Bool => wireType := WIRE_VARINT;
      case Varint(_) => wireType := WIRE_VARINT;
      case UVarint(_) => wireType := WIRE_VARINT;
      case SVarint(_) => wireType := WIRE_VARINT;
      case Bytes(_) => wireType := WIRE_STRING;
      case Str(_) => wireType := WIRE_STRING;
      case FixedBytes(_) => wireType := WIRE_STRING;
      case Submessage(_) => wireType := WIRE_STRING;
    }
    ok, s' := EncodeTag(s, wireType, field.tag);
  }

  /** `pb_encode_string` */
  method EncodeString(s: OStream, buffer: seq<byte>) returns (ok: bool, s': OStream)
    requires StreamValid(s)
    ensures Writes(s, Prefixed(Ok(buffer)), ok, s')
  {
    hide Writes;
    ok, s' := EncodeVarint(s, |buffer|);
    WritesFirst(s, Ok(Coding.Varint(|buffer|)), Ok(buffer), ok, s');
    if !ok {
      return;
    }
    ghost var s1 := s';
    ok, s' := Write(s', buffer);
    WritesBoth(s, Ok(Coding.Varint(|buffer|)), s1, Ok(buffer), ok, s');
  }

  /** When the first part fails, so does the whole. */
  lemma WritesFirst(s: OStream, a: Encoded, b: Encoded, ok: bool, s': OStream)
    requires Writes(s, a, ok, s')
    ensures !ok ==> Writes(s, Cat(a, b), false, s')
    ensures ok ==> StreamValid(s') && a.Ok? && s' == After(s, a.bytes)
  {
  }

  /** A sizing stream takes whatever can be encoded. */
  lemma SizingCounts(s: OStream, e: Encoded, ok: bool, s': OStream)
    requires s.sizing && Writes(s, e, ok, s')
    ensures ok <==> e.Ok?
    ensures ok ==> s'.count == s.count + |e.bytes| && s'.sizing
  {
  }

  /** `pb_enc_bool` ... `pb_enc_fixed_length_bytes` */
  method EncValue(s: OStream, kind: Kind, v: Value) returns (ok: bool, s': OStream)
    requires StreamValid(s) && HasShape(kind, v)
    ensures Writes(s, EncodeValue(kind, v), ok, s')
    decreases v, 0
  {
    hide Writes, Fixed;
    match kind
    case Bool =>
      ok, s' := EncodeVarint(s, if v.n == 0 then 0 else 1);
    case Varint(w) =>
      WiderFits(v.n, w);
      ok, s' := EncodeVarint(s, Unsigned64(v.n));
    case UVarint(_) =>
      ok, s' := EncodeVarint(s, v.n);
    case SVarint(w) =>
      WiderFits(v.n, w);
      ok, s' := EncodeSVarint(s, v.n);
    case Fixed32 =>
      ok, s' := Write(s, Fixed(v.n, 4));
    case Fixed64 =>
      ok, s' := Write(s, Fixed(v.n, 8));
    case Bytes(max) =>
      if |v.bytes| > max {
        FailsOnError(s);
        return false, s;
      }
      ok, s' := EncodeString(s, v.bytes);
    case Str(max) =>
      var size := StringLength(v.bytes, max);
      ok, s' := EncodeString(s, v.bytes[..size]);
    case FixedBytes(_) =>
      ok, s' := EncodeString(s, v.bytes);
    case Submessage(desc) =>
      var changed;
      ok, s', changed := EncodeSubmessage(s, desc, v.message);
  }

  lemma FailsOnError(s: OStream)
    ensures Writes(s, Error, false, s)
  {
  }

  /** `~((pb_uint64_t)value << 1)` and `(pb_uint64_t)value << 1` are the zigzag form. */
  method EncodeSVarint(s: OStream, value: int) returns (ok: bool, s': OStream)
    requires StreamValid(s) && FitsSigned(value, 8)
    ensures Writes(s, Ok(Coding.Varint(ZigZag(value))), ok, s')
  {
    hide Writes;
    var shifted := Unsigned64(value) * 2 % TWO_TO_64;
    var zigzagged := if value < 0 then TWO_TO_64 - 1 - shifted else shifted;
    assert zigzagged == ZigZag(value);
    ok, s' := EncodeVarint(s, zigzagged);
  }

  /** The loop in place of `strnlen`. */
  method StringLength(bytes: seq<byte>, max: nat) returns (size: nat)
    ensures size <= |bytes| && bytes[..size] == CString(bytes, max)
  {
    hide IsNul, CString;
    size := 0;
    assert bytes[..0] == [] && bytes[0..] == bytes;
    while size < max && size < |bytes| && !IsNul(bytes[size])
      invariant size <= |bytes| && size <= max
      invariant CString(bytes, max) == bytes[..size] + CString(bytes[size..], max - size)
    {
      CStringUnfolds(bytes[size..], max - size);
      assert bytes[size..][1..] == bytes[size + 1..];
      assert bytes[..size + 1] == bytes[..size] + [bytes[size]];
      size := size + 1;
    }
    CStringUnfolds(bytes[size..], max - size);
  }

  lemma CStringUnfolds(s: seq<byte>, max: nat)
    ensures CString(s, max) == if s == [] || max == 0 || IsNul(s[0]) then [] else [s[0]] + CString(s[1..], max - 1)
  {
    hide IsNul;
  }

  /** `pb_encode_submessage`: never finds that the size has changed. */
  method EncodeSubmessage(s: OStream, desc: Desc, m: Message) returns (ok: bool, s': OStream, sizeChanged: bool)
    requires StreamValid(s) && MessageHasShape(desc, m)
    ensures Writes(s, Prefixed(EncodeMessage(desc, m)), ok, s') && !sizeChanged
    decreases m, 4
  {
    hide EncodeMessage, Coding.Varint;
    ghost var e := EncodeMessage(desc, m);
    var substream := SIZING;
    ok, substream := Encode(substream, desc, m);
    if !ok {
      return false, s, false;
    }
    var size := substream.count;
    ok, s' := EncodeVarint(s, size);
    if !ok {
      return false, s', false;
    }
    if s'.sizing {
      s' := WriteSize(s', size);
      return true, s', false;
    }
    if s'.count + size > s'.max {
      return false, s', false;
    }
    substream := OStream(false, s'.written, 0, size);
    var status;
    status, substream := Encode(substream, desc, m);
    s' := s'.(count := s'.count + substream.count, written := substream.written);
    if substream.count != size {
      return false, s', true;
    }
    return status, s', false;
  }

  /** Elements one after the other without tags, as in a packed array. */
  method EncodeElements(s: OStream, field: Field, slot: Slot) returns (ok: bool, s': OStream)
    requires StreamValid(s) && SlotHasShape(field, slot)
    ensures Writes(s, EncodePacked(field, slot, 0), ok, s')
    decreases slot, 0
  {
    hide Writes, EncodeValue;
    s' := s;
    ghost var done := Ok([]);
    WritesNothing(s);
    for i := 0 to |slot.values|
      invariant done.Ok? && Writes(s, done, true, s') && StreamValid(s')
      invariant EncodePacked(field, slot, 0) == Cat(done, EncodePacked(field, slot, i))
    {
      ghost var e, s1 := EncodeValue(field.kind, slot.values[i]), s';
      ok, s' := EncValue(s', field.kind, slot.values[i]);
      CatAssociates(done, e, EncodePacked(field, slot, i + 1));
      WritesBoth(s, done, s1, e, ok, s');
      WritesFirst(s, Cat(done, e), EncodePacked(field, slot, i + 1), ok, s');
      if !ok {
        return;
      }
      done := Cat(done, e);
    }
    CatNothing(done);
    return true, s';
  }

  lemma CatNothing(a: Encoded)
    ensures Cat(a, Ok([])) == a && Cat(Ok([]), a) == a
  {
    if a.Ok? {
      assert a.bytes + [] == a.bytes && [] + a.bytes == a.bytes;
    }
  }

  /** The size of a packed array of fixed-size numbers needs no sizing pass. */
  lemma {:induction false} FixedSizes(field: Field, slot: Slot, j: nat)
    requires SlotHasShape(field, slot) && j <= |slot.values| && (field.kind.Fixed32? || field.kind.Fixed64?)
    ensures var e := EncodePacked(field, slot, j);
            e.Ok? && |e.bytes| == (|slot.values| - j) * (if field.kind.Fixed32? then 4 else 8)
    decreases |slot.values| - j
  {
    if j < |slot.values| {
      FixedSizes(field, slot, j + 1);
      assert HasShape(field.kind, slot.values[j]);
    }
  }

  /** `encode_array` */
  method EncodeArrayField(s: OStream, field: Field, slot: Slot) returns (ok: bool, s': OStream)
    requires StreamValid(s) && SlotHasShape(field, slot) && IsArray(field.rule)
    ensures Writes(s, EncodeArray(field, slot), ok, s')
    decreases slot, 4
  {
    hide Writes, EncodePacked, EncodeUnpacked, EncodeTagged;
    var count := |slot.values|;
    if count == 0 {
      WritesNothing(s);
      return true, s;
    }
    if field.rule.Repeated? && count > field.rule.max {
      FailsOnError(s);
      return false, s;
    }
    if IsPackable(field.kind) {
      ok, s' := EncodePackedArray(s, field, slot);
    } else {
      ok, s' := EncodeUnpackedArray(s, field, slot);
    }
  }

  method EncodePackedArray(s: OStream, field: Field, slot: Slot) returns (ok: bool, s': OStream)
    requires StreamValid(s) && SlotHasShape(field, slot) && IsPackable(field.kind)
    ensures Writes(s, Cat(Ok(TagBytes(field.tag, WIRE_STRING)), Prefixed(EncodePacked(field, slot, 0))), ok, s')
    decreases slot, 3
  {
    hide Writes, EncodePacked, TagBytes, Prefixed;
    ghost var e, tag := Prefixed(EncodePacked(field, slot, 0)), Ok(TagBytes(field.tag, WIRE_STRING));
    ok, s' := EncodeTag(s, WIRE_STRING, field.tag);
    WritesFirst(s, tag, e, ok, s');
    if !ok {
      return;
    }
    ghost var s1 := s';
    ok, s' := EncodePackedBody(s', field, slot);
    WritesBoth(s, tag, s1, e, ok, s');
  }

  /** The total size of a packed array. */
  method PackedSize(field: Field, slot: Slot) returns (ok: bool, size: nat)
    requires SlotHasShape(field, slot) && IsPackable(field.kind)
    ensures var e := EncodePacked(field, slot, 0); (ok <==> e.Ok?) && (ok ==> size == |e.bytes|)
    decreases slot, 1
  {
    hide EncodePacked, Writes;
    if field.kind.Fixed32? {
      FixedSizes(field, slot, 0);
      return true, 4 * |slot.values|;
    } else if field.kind.Fixed64? {
      FixedSizes(field, slot, 0);
      return true, 8 * |slot.values|;
    }
    var sizestream;
    ok, sizestream := EncodeElements(SIZING, field, slot);
    SizingCounts(SIZING, EncodePacked(field, slot, 0), ok, sizestream);
    size := sizestream.count;
  }

  /** The size and the elements. */
  method EncodePackedBody(s: OStream, field: Field, slot: Slot) returns (ok: bool, s': OStream)
    requires StreamValid(s) && SlotHasShape(field, slot) && IsPackable(field.kind)
    ensures Writes(s, Prefixed(EncodePacked(field, slot, 0)), ok, s')
    decreases slot, 2
  {
    hide EncodePacked, Coding.Varint, Writes;
    ghost var e := EncodePacked(field, slot, 0);
    var size;
    ok, size := PackedSize(field, slot);
    if !ok {
      FailsOnError(s);
      return false, s;
    }
    ok, s' := EncodeVarint(s, size);
    WritesFirst(s, Ok(Coding.Varint(size)), e, ok, s');
    if !ok {
      return;
    }
    ghost var s1 := s';
    if s'.sizing {
      s' := WriteSize(s', size);
      SizeIsWritten(s1, e, s');
    } else {
      ok, s' := EncodeElements(s', field, slot);
    }
    WritesBoth(s, Ok(Coding.Varint(size)), s1, e, ok, s');
  }

  /** On a sizing stream it is enough to count. */
  lemma SizeIsWritten(s: OStream, e: Encoded, s': OStream)
    requires s.sizing && e.Ok? && s' == s.(count := s.count + |e.bytes|)
    ensures Writes(s, e, true, s')
  {
  }

  method EncodeUnpackedArray(s: OStream, field: Field, slot: Slot) returns (ok: bool, s': OStream)
    requires StreamValid(s) && SlotHasShape(field, slot)
    ensures Writes(s, EncodeUnpacked(field, slot, 0), ok, s')
    decreases slot, 1
  {
    hide Writes, EncodeTagged;
    s' := s;
    ghost var done := Ok([]);
    WritesNothing(s);
    for i := 0 to |slot.values|
      invariant done.Ok? && Writes(s, done, true, s') && StreamValid(s')
      invariant EncodeUnpacked(field, slot, 0) == Cat(done, EncodeUnpacked(field, slot, i))
    {
      ghost var e, s1 := EncodeTagged(field, slot, i), s';
      ok, s' := EncodeOne(s', field, slot, i);
      CatAssociates(done, e, EncodeUnpacked(field, slot, i + 1));
      WritesBoth(s, done, s1, e, ok, s');
      WritesFirst(s, Cat(done, e), EncodeUnpacked(field, slot, i + 1), ok, s');
      if !ok {
        return;
      }
      done := Cat(done, e);
    }
    CatNothing(done);
    return true, s';
  }

  /** A value with the tag of its field. */
  method EncodeOne(s: OStream, field: Field, slot: Slot, j: nat) returns (ok: bool, s': OStream)
    requires StreamValid(s) && SlotHasShape(field, slot) && j < |slot.values|
    ensures Writes(s, EncodeTagged(field, slot, j), ok, s')
    decreases slot, 0
  {
    hide Writes, EncodeValue, TagBytes;
    ghost var tag, e := Ok(TagBytes(field.tag, WireType(field.kind))), EncodeValue(field.kind, slot.values[j]);
    ok, s' := EncodeTagForField(s, field);
    WritesFirst(s, tag, e, ok, s');
    if !ok {
      return;
    }
    ghost var s1 := s';
    ok, s' := EncValue(s', field.kind, slot.values[j]);
    WritesBoth(s, tag, s1, e, ok, s');
  }

  /** `encode_basic_field` */
  method EncodeBasicField(s: OStream, desc: Desc, m: Message, i: nat) returns (ok: bool, s': OStream)
    requires StreamValid(s) && MessageHasShape(desc, m) && i < |m.slots|
    ensures Writes(s, EncodeField(desc, m, i), ok, s')
    ensures SlotHasShape(desc.fields[i], m.slots[i])
    ensures IsNothing(desc.fields[i], m.slots[i]) ==> ok && s' == s
    decreases m, 2
  {
    hide Writes, EncodeTagged, EncodeArray, IsDefault, IsZero;
    var field, slot := desc.fields[i], m.slots[i];
    assert SlotHasShape(field, slot);
    WritesNothing(s);
    ok, s' := true, s;
    match field.rule
    case Required =>
      ok, s' := EncodeOne(s, field, slot, 0);
    case Optional =>
      if slot.has {
        ok, s' := EncodeOne(s, field, slot, 0);
      }
    case Singular =>
      var isDefault := CheckProto3DefaultValue(desc, m, i);
      if !isDefault {
        ok, s' := EncodeOne(s, field, slot, 0);
      }
    case Repeated(_) =>
      ok, s' := EncodeArrayField(s, field, slot);
      if slot.values == [] {
        EmptyArray(field, slot);
        NothingWritten(s, ok, s');
      }
    case FixedCount(_) =>
      ok, s' := EncodeArrayField(s, field, slot);
    case OneOf(_) =>
      if slot.has {
        ok, s' := EncodeOne(s, field, slot, 0);
      }
  }

  /** `pb_check_proto3_default_value`; a union knows that none of its fields is stored. */
  method CheckProto3DefaultValue(desc: Desc, m: Message, i: nat) returns (isDefault: bool)
    requires MessageHasShape(desc, m) && i < |m.slots|
    ensures SlotHasShape(desc.fields[i], m.slots[i])
    ensures isDefault == IsDefault(desc, m, i)
    ensures desc.fields[i].rule.Singular? ==> (isDefault <==> IsZero(desc.fields[i].kind, m.slots[i].values[0]))
    decreases m, 0
  {
    hide IsZero;
    var field, slot := desc.fields[i], m.slots[i];
    assert SlotHasShape(field, slot);
    if field.rule.Singular? {
      DefaultIsZero(desc, m, i);
    }
    match field.rule
    case Required => return false;
    case Repeated(_) => return slot.values == [];
    case FixedCount(_) => return false;
    case OneOf(group) =>
      isDefault := true;
      for k := 0 to |m.slots|
        invariant isDefault <==> forall j :: 0 <= j < k && desc.fields[j].rule == OneOf(group) ==> !m.slots[j].has
      {
        if desc.fields[k].rule == OneOf(group) && m.slots[k].has {
          isDefault := false;
        }
      }
    case Optional => return !slot.has;
    case Singular =>
      var v := slot.values[0];
      assert HasShape(field.kind, v);
      match field.kind {
        case Bytes(_) => return v.bytes == [];
        case Str(_) => return v.bytes == [] || IsNul(v.bytes[0]);
        case FixedBytes(size) => return size == 0;
        case Submessage(desc') =>
          ValueSmaller(m, i);
          for k := 0 to |v.message.slots|
            invariant forall j :: 0 <= j < k ==> IsDefault(desc', v.message, j)
          {
            var d := CheckProto3DefaultValue(desc', v.message, k);
            if !d {
              assert !AllDefault(desc', v.message);
              return false;
            }
          }
          assert AllDefault(desc', v.message);
          return true;
        case _ => return v.n == 0;
      }
  }

  /** `pb_encode` */
  method Encode(s: OStream, desc: Desc, m: Message) returns (ok: bool, s': OStream)
    requires StreamValid(s) && MessageHasShape(desc, m)
    ensures Writes(s, EncodeMessage(desc, m), ok, s')
    decreases m, 3
  {
    hide Writes, EncodeField;
    s' := s;
    ghost var done := Ok([]);
    WritesNothing(s);
    CatNothing(EncodeFrom(desc, m, 0));
    for i := 0 to |m.slots|
      invariant done.Ok? && Writes(s, done, true, s') && StreamValid(s')
      invariant EncodeMessage(desc, m) == Cat(done, EncodeFrom(desc, m, i))
    {
      ghost var e, s1 := EncodeField(desc, m, i), s';
      ok, s' := EncodeBasicField(s', desc, m, i);
      CatAssociates(done, e, EncodeFrom(desc, m, i + 1));
      WritesBoth(s, done, s1, e, ok, s');
      WritesFirst(s, Cat(done, e), EncodeFrom(desc, m, i + 1), ok, s');
      if !ok {
        return;
      }
      done := Cat(done, e);
    }
    CatNothing(done);
    return true, s';
  }

  /** `pb_get_encoded_size`, and then encoding into a buffer: the sizing run counts exactly the bytes that the writing
      run emits, and writing succeeds when sizing does and there is room for that size, and only
      then.  Sizing fails only for an array that is too long. */
  method SizeThenEncode(desc: Desc, m: Message, room: nat) returns (sized: bool, size: nat, ok: bool, bytes: seq<byte>)
    requires MessageHasShape(desc, m)
    ensures ok <==> sized && size <= room
    ensures ok ==> |bytes| == size && EncodeMessage(desc, m) == Ok(bytes)
    ensures sized <==> EncodeMessage(desc, m).Ok?
    ensures sized <==> MessageWritable(desc, m)
    ensures sized ==> size == |EncodeMessage(desc, m).bytes|
  {
    hide EncodeFrom;
    EncodingSucceeds(desc, m, 0);
    var sizing, stream;
    sized, sizing := Encode(SIZING, desc, m);
    size := sizing.count;
    ok, stream := Encode(OStream(false, [], 0, room), desc, m);
    bytes := stream.written;
  }
}
