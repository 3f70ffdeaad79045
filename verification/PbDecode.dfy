/** The decoder of nanopb (pb_decode.c, pb_common.c).  Bytes of any kind may come in; what the contracts add is that the
bytes of a message, in any form in which it may come, restore it. */
module PbDecode {
  import opened Bytes
  import opened Coding
  import opened PbTypes
  import opened PbRestore
  import opened PbWire
  import opened PbDecodeScalars
  import opened PbProgress
  import opened PbBounds

  /** The input begins with the encoding of `v`. */
  ghost predicate ExpectsValue(input: seq<byte>, kind: Kind, v: Value, tail: seq<byte>) {
    && HasShape(kind, v) && ValueOk(kind, v) && |input| < TWO_TO_32
    && exists p :: EncodesValue(kind, v, p) && input == p + tail
  }

  /** Of most kinds there is one encoding. */
  lemma ValueBytes(input: seq<byte>, kind: Kind, v: Value, tail: seq<byte>)
    requires ExpectsValue(input, kind, v, tail)
    ensures !kind.Bool? && !kind.FixedBytes? && !kind.Submessage? ==>
              EncodeValue(kind, v).Ok? && input == EncodeValue(kind, v).bytes + tail
  {
    hide EncodeValue;
  }

  lemma BoolBytes(input: seq<byte>, v: Value, tail: seq<byte>) returns (x: nat)
    requires ExpectsValue(input, Bool, v, tail)
    ensures x < TWO_TO_32 && BeginsWith(input, x, tail) && v == Number(if x == 0 then 0 else 1)
  {
    hide Coding.Varint;
    var p :| EncodesValue(Bool, v, p) && input == p + tail;
    assert EncodesPlain(Bool, v, p);
    x :| x < TWO_TO_32 && p == Coding.Varint(x) && v.n == if x == 0 then 0 else 1;
  }

  lemma FixedLengthBytes(input: seq<byte>, size: nat, v: Value, tail: seq<byte>) returns (bytes: seq<byte>)
    requires ExpectsValue(input, FixedBytes(size), v, tail)
    ensures input == Coding.Varint(|bytes|) + bytes + tail
    ensures v.bytes == if bytes == [] then seq(size, _ => 0) else bytes
    ensures bytes == [] || |bytes| == size
  {
    hide Coding.Varint;
    var p :| EncodesValue(FixedBytes(size), v, p) && input == p + tail;
    bytes := if IsSized(p, v.bytes) then v.bytes else [];
    assert v.bytes == [] ==> v.bytes == seq(size, _ => 0);
  }

  /** The input is an encoding of `m`; if it is not complete, something is missing that the decoder insists on. */
  ghost predicate ExpectsMessage(input: seq<byte>, desc: Desc, m: Message, complete: bool) {
    MessageHasShape(desc, m) && MessageOk(desc, m) && EncodesMessage(desc, m, input, complete) && |input| < TWO_TO_32
  }

  lemma ExpectsShape(input: seq<byte>, desc: Desc, m: Message, complete: bool)
    ensures ExpectsMessage(input, desc, m, complete) ==> MessageHasShape(desc, m)
  {
  }

  /** `pb_make_string_substream`, and what is left when it is closed. */
  method MakeSubstream(input: seq<byte>, ghost bytes: seq<byte>, ghost tail: seq<byte>)
      returns (ok: bool, substream: seq<byte>, rest: seq<byte>)
    ensures ok ==> |rest| < |input| && |substream| <= |input|
    ensures input == Coding.Varint(|bytes|) + bytes + tail && |input| < TWO_TO_32 ==>
              ok && substream == bytes && rest == tail
  {
    hide Coding.Varint;
    assert Coding.Varint(|bytes|) + bytes + tail == Coding.Varint(|bytes|) + (bytes + tail);
    var eof, size;
    ok, eof, size, rest := DecodeVarint32(input, |bytes|, bytes + tail);
    if !ok || |rest| < size {
      return false, [], rest;
    }
    substream := rest[..size];
    rest := rest[size..];
  }

  /** Fixed-size numbers. */
  method DecFixed(input: seq<byte>, k: nat, ghost n: nat, ghost tail: seq<byte>)
      returns (ok: bool, value: nat, rest: seq<byte>)
    requires k > 0
    ensures ok ==> |rest| < |input| && value < Power256(k)
    ensures n < Power256(k) && input == Fixed(n, k) + tail ==> ok && value == n && rest == tail
  {
    hide Fixed, Unfixed, Power256;
    if |input| < k {
      return false, 0, input;
    }
    if n < Power256(k) && input == Fixed(n, k) + tail {
      FixedRoundTrip(n, k);
      assert input[..k] == Fixed(n, k);
    }
    UnfixedFits(input[..k]);
    return true, Unfixed(input[..k]), input[k..];
  }

  lemma {:induction false} UnfixedFits(s: seq<byte>)
    ensures Unfixed(s) < Power256(|s|)
  {
    hide NatOf;
    if s != [] {
      NatOfBelow(s[0]);
      UnfixedFits(s[1..]);
    }
  }

  /** A cast of an `int64_t` to a narrower signed type. */
  function Cast(n: int, width: nat): int {
    var low := n % Values(width);
    if low < Values(width) / 2 then low else low - Values(width)
  }

  lemma CastFits(n: int, width: nat)
    requires IsWidth(width)
    ensures FitsSigned(Cast(n, width), width)
    ensures FitsSigned(n, width) ==> Cast(n, width) == n
  {
    if FitsSigned(n, width) && n < 0 {
      assert n == (n + Values(width)) + -1 * Values(width);
    }
  }

  /** `pb_dec_varint` */
  method DecVarint(input: seq<byte>, width: nat, ghost n: int, ghost tail: seq<byte>)
      returns (ok: bool, value: int, rest: seq<byte>)
    requires IsWidth(width)
    ensures ok ==> |rest| < |input| && FitsSigned(value, width)
    ensures FitsSigned(n, width) && FitsSigned(n, 8) && BeginsWith(input, Unsigned64(n), tail) ==>
              ok && value == n && rest == tail
  {
    hide BeginsWith, SignedField, Cast, IsVarint, Groups, Power;
    ghost var good := FitsSigned(n, width) && FitsSigned(n, 8) && BeginsWith(input, Unsigned64(n), tail);
    if good {
      SignedRoundTrip(n, width);
    }
    var raw;
    ok, raw, rest := DecodeVarint(input, if FitsSigned(n, 8) then Unsigned64(n) else 0, tail);
    if !ok {
      return false, 0, rest;
    }
    var svalue := SignedField(raw, width);
    CastFits(svalue, width);
    value := Cast(svalue, width);
    if value != svalue {
      return false, 0, rest;
    }
  }

  /** `pb_dec_uvarint` */
  method DecUVarint(input: seq<byte>, width: nat, ghost n: nat, ghost tail: seq<byte>)
      returns (ok: bool, value: nat, rest: seq<byte>)
    requires IsWidth(width)
    ensures ok ==> |rest| < |input| && value < Values(width)
    ensures n < Values(width) && BeginsWith(input, n, tail) ==> ok && value == n && rest == tail
  {
    hide BeginsWith, IsVarint, Groups, Power;
    var raw;
    ok, raw, rest := DecodeVarint(input, n, tail);
    if !ok {
      return false, 0, rest;
    }
    value := raw % Values(width);
    if value != raw {
      return false, 0, rest;
    }
  }

  /** `pb_dec_svarint` */
  method DecSVarint(input: seq<byte>, width: nat, ghost n: int, ghost tail: seq<byte>)
      returns (ok: bool, value: int, rest: seq<byte>)
    requires IsWidth(width)
    ensures ok ==> |rest| < |input| && FitsSigned(value, width)
    ensures FitsSigned(n, width) && FitsSigned(n, 8) && BeginsWith(input, ZigZag(n), tail) ==>
              ok && value == n && rest == tail
  {
    hide BeginsWith, UnZigZag, Cast, IsVarint, Groups, Power;
    ghost var good := FitsSigned(n, width) && FitsSigned(n, 8) && BeginsWith(input, ZigZag(n), tail);
    if good {
      ZigZagRoundTrip(n);
    }
    var raw;
    ok, raw, rest := DecodeVarint(input, if FitsSigned(n, 8) then ZigZag(n) else 0, tail);
    if !ok {
      return false, 0, rest;
    }
    var svalue := UnZigZag(raw);
    CastFits(svalue, width);
    value := Cast(svalue, width);
    if value != svalue {
      return false, 0, rest;
    }
  }

  /** `pb_dec_bytes`, `pb_dec_string` (`max` leaves room for the NUL) */
  method DecBytes(input: seq<byte>, max: nat, ghost bytes: seq<byte>, ghost tail: seq<byte>)
      returns (ok: bool, value: seq<byte>, rest: seq<byte>)
    ensures ok ==> |rest| < |input| && |value| <= max
    ensures input == Coding.Varint(|bytes|) + bytes + tail && |input| < TWO_TO_32 ==>
              (ok <==> |bytes| <= max) && (ok ==> value == bytes && rest == tail)
  {
    hide Coding.Varint;
    assert Coding.Varint(|bytes|) + bytes + tail == Coding.Varint(|bytes|) + (bytes + tail);
    var eof, size;
    ok, eof, size, rest := DecodeVarint32(input, |bytes|, bytes + tail);
    if !ok || size > max || |rest| < size {
      return false, [], rest;
    }
    value := rest[..size];
    rest := rest[size..];
  }

  /** `pb_dec_fixed_length_bytes` */
  method DecFixedBytes(input: seq<byte>, length: nat, ghost bytes: seq<byte>, ghost tail: seq<byte>)
      returns (ok: bool, value: seq<byte>, rest: seq<byte>)
    ensures ok ==> |rest| < |input| && |value| == length
    ensures input == Coding.Varint(|bytes|) + bytes + tail && |input| < TWO_TO_32 ==>
              && (ok <==> bytes == [] || |bytes| == length)
              && (ok ==> value == (if bytes == [] then seq(length, _ => 0) else bytes) && rest == tail)
  {
    hide Coding.Varint;
    assert Coding.Varint(|bytes|) + bytes + tail == Coding.Varint(|bytes|) + (bytes + tail);
    var eof, size;
    ok, eof, size, rest := DecodeVarint32(input, |bytes|, bytes + tail);
    if !ok {
      return false, [], rest;
    }
    if size == 0 {
      value := seq(length, _ => 0);
      return true, value, rest;
    }
    if size != length || |rest| < size {
      return false, [], rest;
    }
    value := rest[..size];
    rest := rest[size..];
  }

  /** A string as it stands in the array of `max` bytes: what was read and a NUL; read back it ends at the first NUL. */
  method DecString(input: seq<byte>, max: nat, ghost bytes: seq<byte>, ghost tail: seq<byte>)
      returns (ok: bool, value: seq<byte>, rest: seq<byte>)
    ensures ok ==> |rest| < |input| && |value| < max
    ensures input == Coding.Varint(|bytes|) + bytes + tail && |input| < TWO_TO_32 ==>
              (ok <==> |bytes| < max) && (ok ==> value == bytes && rest == tail)
  {
    if max == 0 {
      ok := false;
      value, rest := [], input;
      return;
    }
    ok, value, rest := DecBytes(input, max - 1, bytes, tail);
  }

  /** `pb_decode_tag`; a zero byte in place of a tag ends a message too. */
  method DecodeTag(input: seq<byte>, ghost tag: nat, ghost wire: nat, ghost tail: seq<byte>)
    returns (ok: bool, eof: bool, wireType: nat, number: nat, rest: seq<byte>)
    ensures ok ==> |rest| < |input| && !eof
    ensures 0 < tag < 0x2000_0000 && wire < 8 && input == TagBytes(tag, wire) + tail ==>
              ok && wireType == wire && number == tag && rest == tail
    ensures input == [] || NatOf(input[0]) == 0 ==> !ok && eof
  {
    hide Coding.Varint, NatOf;
    ghost var zero := input != [] && NatOf(input[0]) == 0;
    if zero {
      ZeroIsVarint(input);
    }
    var temp;
    ok, eof, temp, rest := DecodeVarint32(input, if zero then 0 else tag * 8 + wire, if zero then input[1..] else tail);
    if !ok {
      return false, eof, 0, 0, rest;
    }
    if temp == 0 {
      return false, true, 0, 0, rest;
    }
    number := temp / 8;
    wireType := temp % 8;
  }

  lemma ZeroIsVarint(input: seq<byte>)
    requires input != [] && NatOf(input[0]) == 0
    ensures BeginsWith(input, 0, input[1..])
    ensures forall tag: nat, wire: nat, tail :: 0 < tag && input == TagBytes(tag, wire) + tail ==> false
  {
    hide ByteOf, NatOf;
    NatRoundTrip(input[0]);
    forall tag: nat, wire: nat, tail | 0 < tag && input == TagBytes(tag, wire) + tail ensures false {
      FirstByte(input, tag * 8 + wire, tail);
    }
  }

  /** `pb_skip_varint` */
  method SkipVarint(input: seq<byte>, ghost p: seq<byte>, ghost tail: seq<byte>) returns (ok: bool, rest: seq<byte>)
    ensures IsVarint(p) && input == p + tail ==> ok && rest == tail
    ensures ok ==> |rest| <= |input| && rest == input[|input| - |rest|..]
    ensures ok ==> IsVarint(input[..|input| - |rest|])
  {
    hide NatOf;
    rest := input;
    ghost var k: nat := 0;
    while true
      invariant k <= |input| && rest == input[k..]
      invariant forall x :: 0 <= x < k ==> NatOf(input[x]) >= 128
      invariant IsVarint(p) && input == p + tail ==> k < |p|
      decreases |rest|
    {
      if rest == [] {
        return false, rest;
      }
      var b := NatOf(rest[0]);
      rest := rest[1..];
      k := k + 1;
      if b < 128 {
        assert input[..k][k - 1] == input[k - 1];
        return true, rest;
      }
    }
  }

  /** `pb_skip_string` */
  method SkipString(input: seq<byte>, ghost s: seq<byte>, ghost tail: seq<byte>) returns (ok: bool, rest: seq<byte>)
    ensures |s| < TWO_TO_32 && input == Coding.Varint(|s|) + (s + tail) ==> ok && rest == tail
    ensures ok ==> |rest| <= |input| && rest == input[|input| - |rest|..]
  {
    hide Coding.Varint;
    var eof, size;
    ok, eof, size, rest := DecodeVarint32(input, |s|, s + tail);
    if !ok || |rest| < size {
      return false, input;
    }
    rest := rest[size..];
  }

  /** `pb_skip_field` */
  method SkipField(input: seq<byte>, wireType: nat, ghost p: seq<byte>, ghost tail: seq<byte>)
      returns (ok: bool, rest: seq<byte>)
    ensures IsPayload(wireType, p) && input == p + tail ==> ok && rest == tail
    ensures ok ==> |rest| <= |input| && rest == input[|input| - |rest|..]
    ensures ok && wireType != 2 ==> IsPayload(wireType, input[..|input| - |rest|])
  {
    hide Coding.Varint, NatOf, IsVarint;
    if wireType == WIRE_VARINT {
      ok, rest := SkipVarint(input, p, tail);
    } else if wireType == WIRE_64BIT {
      ok := |input| >= 8;
      rest := if ok then input[8..] else input;
    } else if wireType == WIRE_STRING {
      ghost var s: seq<byte> := [];
      if IsPayload(wireType, p) && input == p + tail {
        s :| IsSized(p, s);
        assert input == Coding.Varint(|s|) + (s + tail);
      }
      ok, rest := SkipString(input, s, tail);
    } else if wireType == WIRE_32BIT {
      ok := |input| >= 4;
      rest := if ok then input[4..] else input;
    } else {
      ok, rest := false, input;
    }
  }

  /** `pb_field_iter_find`: goes round the fields once, from where the iterator stands. */
  method FindField(desc: Desc, pos: nat, tag: nat) returns (found: bool, i: nat)
    requires pos < |desc.fields| || pos == 0
    ensures found ==> i < |desc.fields| && desc.fields[i].tag == tag
    ensures !found ==> i == pos && forall k :: 0 <= k < |desc.fields| ==> desc.fields[k].tag != tag
  {
    var n := |desc.fields|;
    i := pos;
    if n == 0 {
      return false, pos;
    }
    ghost var steps := 0;
    while true
      invariant 0 <= steps < n && i < n && i == (if pos + steps < n then pos + steps else pos + steps - n)
      invariant forall k :: 0 <= k < n && (if k >= pos then k - pos < steps else k - pos + n < steps) ==>
                desc.fields[k].tag != tag
      decreases n - steps
    {
      if desc.fields[i].tag == tag {
        return true, i;
      }
      i := if i + 1 == n then 0 else i + 1;
      steps := steps + 1;
      if i == pos {
        return false, pos;
      }
    }
  }

  lemma OneFieldPerTag(desc: Desc, i: nat, k: nat)
    requires DescOk(desc) && i < |desc.fields| && k < |desc.fields| && desc.fields[i].tag == desc.fields[k].tag
    ensures i == k
  {
  }

  /** The packable kinds. */
  method DecodeNumber(input: seq<byte>, kind: Kind, ghost v: Value, ghost tail: seq<byte>)
    returns (ok: bool, value: Value, rest: seq<byte>)
    requires KindOk(kind) && IsPackable(kind)
    ensures ok ==> |rest| < |input| && HasShape(kind, value)
    ensures ExpectsValue(input, kind, v, tail) ==> ok && rest == tail && value == v
  {
    hide Coding.Varint, Fixed, IsWidth, FitsSigned, Values, Unsigned64, ZigZag;
    ghost var good := ExpectsValue(input, kind, v, tail);
    if good {
      ValueBytes(input, kind, v, tail);
    }
    match kind {
      case Bool =>
        ghost var x: nat := 0;
        if good {
          x := BoolBytes(input, v, tail);
        }
        var eof, n;
        ok, eof, n, rest := DecodeVarint32(input, x, tail);
        value := Number(if n != 0 then 1 else 0);
      case Varint(w) =>
        if good {
          WiderFits(v.n, w);
        }
        var n;
        ok, n, rest := DecVarint(input, w, if v.Number? then v.n else 0, tail);
        value := Number(n);
      case UVarint(w) =>
        var n;
        ok, n, rest := DecUVarint(input, w, if v.Number? && v.n >= 0 then v.n else 0, tail);
        value := Number(n);
      case SVarint(w) =>
        if good {
          WiderFits(v.n, w);
        }
        var n;
        ok, n, rest := DecSVarint(input, w, if v.Number? then v.n else 0, tail);
        value := Number(n);
      case Fixed32 =>
        PowersOf256();
        var n;
        ok, n, rest := DecFixed(input, 4, if v.Number? && v.n >= 0 then v.n else 0, tail);
        value := Number(n);
      case Fixed64 =>
        PowersOf256();
        var n;
        ok, n, rest := DecFixed(input, 8, if v.Number? && v.n >= 0 then v.n else 0, tail);
        value := Number(n);
    }
  }

  /** A submessage may be merged into what is there. */
  ghost predicate IsReady(kind: Kind, present: Value, v: Value)
    requires HasShape(kind, v)
  {
    kind.Submessage? ==> present.Record? && Ready(kind.desc, present.message, v.message)
  }

  /** `PB_DECODERS`: `present` is what the field held before. */
  method DecodeValue(input: seq<byte>, kind: Kind, repeated: bool, present: Value, ghost v: Value,
                     ghost tail: seq<byte>)
    returns (ok: bool, value: Value, rest: seq<byte>)
    requires KindOk(kind) && HasShape(kind, present)
    ensures ok ==> |rest| < |input| && HasShape(kind, value)
    ensures ok && KindFits(kind) && ValueFits(kind, present) ==> ValueFits(kind, value)
    ensures ExpectsValue(input, kind, v, tail) && (!repeated ==> IsReady(kind, present, v)) ==>
              && (ok <==> ValueReadable(kind, v))
              && (ok ==> rest == tail)
              && (ok ==> if repeated then DecodedValue(kind, v, value) else MergedValue(kind, present, v, value))
    decreases kind, 0
  {
    hide Coding.Varint, MessageHasShape, MessageOk, EncodeMessage, DecodedMessage, DescOk, CString, MessageReadable,
         EncodesMessage, Ready, MergedMessage;
    ghost var good := ExpectsValue(input, kind, v, tail);
    if good {
      ValueBytes(input, kind, v, tail);
    }
    if IsPackable(kind) {
      ok, value, rest := DecodeNumber(input, kind, v, tail);
      return;
    }
    value := present;
    match kind {
      case Bytes(max) =>
        var bytes;
        ok, bytes, rest := DecBytes(input, max, if v.Blob? then v.bytes else [], tail);
        value := Blob(bytes);
      case Str(max) =>
        var bytes;
        ok, bytes, rest := DecString(input, max, if v.Blob? then CString(v.bytes, max) else [], tail);
        value := Blob(bytes);
      case FixedBytes(size) =>
        ghost var s: seq<byte> := [];
        if good {
          s := FixedLengthBytes(input, size, v, tail);
        }
        var bytes;
        ok, bytes, rest := DecFixedBytes(input, size, s, tail);
        value := Blob(bytes);
      case Submessage(desc) =>
        ghost var s: seq<byte> := [];
        if good {
          s := MessageBytes(input, desc, v, tail);
        }
        ok, value, rest := DecSubmessage(input, desc, repeated, present, v, s, tail);
    }
  }

  /** The input begins with the size and the bytes of a submessage. */
  ghost predicate ExpectsSubmessage(input: seq<byte>, desc: Desc, v: Value, s: seq<byte>, tail: seq<byte>) {
    && v.Record? && MessageHasShape(desc, v.message) && MessageOk(desc, v.message) && |input| < TWO_TO_32
    && EncodesMessage(desc, v.message, s, true) && input == Coding.Varint(|s|) + s + tail
  }

  lemma MessageBytes(input: seq<byte>, desc: Desc, v: Value, tail: seq<byte>) returns (s: seq<byte>)
    requires ExpectsValue(input, Submessage(desc), v, tail)
    ensures ExpectsSubmessage(input, desc, v, s, tail)
  {
    hide EncodesMessage, MessageOk, MessageHasShape;
    var p :| EncodesValue(Submessage(desc), v, p) && input == p + tail;
    s :| IsSized(p, s) && EncodesMessage(desc, v.message, s, true);
  }

  /** `pb_dec_submessage` */
  method DecSubmessage(input: seq<byte>, desc: Desc, repeated: bool, present: Value, ghost v: Value, ghost s: seq<byte>,
                       ghost tail: seq<byte>)
    returns (ok: bool, value: Value, rest: seq<byte>)
    requires DescOk(desc) && present.Record? && MessageHasShape(desc, present.message)
    ensures ok ==> |rest| < |input| && value.Record? && MessageHasShape(desc, value.message)
    ensures ok && DescFits(desc) && MessageFits(desc, present.message) ==>
              value.Record? && MessageFits(desc, value.message)
    ensures ExpectsSubmessage(input, desc, v, s, tail) && (!repeated ==> Ready(desc, present.message, v.message)) ==>
              && (ok <==> MessageReadable(desc, v.message))
              && (ok ==> rest == tail && value.Record?)
              && (ok && repeated ==> DecodedMessage(desc, v.message, value.message))
              && (ok && !repeated ==> MergedMessage(desc, present.message, v.message, value.message))
    decreases desc, 4
  {
    hide Coding.Varint, MessageHasShape, MessageOk, EncodesMessage, DecodedMessage, DescOk, DefaultMessage,
         MessageReadable, Ready, MergedMessage;
    var substream;
    value := present;
    ok, substream, rest := MakeSubstream(input, s, tail);
    if !ok {
      return;
    }
    ghost var m := if v.Record? then v.message else present.message;
    var r;
    if repeated {
      ok, r := Decode(substream, desc, m, true);
    } else {
      ok, r := DecodeNoinit(substream, desc, present.message, m, true);
    }
    value := Record(r);
  }

  /** `pb_decode` */
  method Decode(input: seq<byte>, desc: Desc, ghost m: Message, ghost complete: bool) returns (ok: bool, r: Message)
    requires DescOk(desc)
    ensures ok ==> MessageHasShape(desc, r)
    ensures ok && DescFits(desc) ==> MessageFits(desc, r)
    ensures ExpectsMessage(input, desc, m, complete) ==>
              && (ok <==> complete && MessageReadable(desc, m))
              && (ok ==> DecodedMessage(desc, m, r))
    decreases desc, 3
  {
    hide MessageReadable, MessageHasShape, MessageOk, EncodesMessage, DecodedMessage, DescOk, Ready, MergedMessage;
    DefaultHasShape(desc);
    if DescFits(desc) {
      DefaultFits(desc);
    }
    if MessageHasShape(desc, m) {
      DefaultIsReady(desc, m);
    }
    ok, r := DecodeNoinit(input, desc, DefaultMessage(desc), m, complete);
    if ok && ExpectsMessage(input, desc, m, complete) {
      MergedIsDecoded(desc, m, r);
    }
  }

  /** The element at index `size`, which is the count of a repeated field. */
  function Store(field: Field, slot: Slot, size: nat, v: Value): Slot
    requires size <= |slot.values| && (!field.rule.Repeated? ==> size < |slot.values|)
  {
    if field.rule.Repeated? then slot.(values := slot.values[..size] + [v]) else slot.(values := slot.values[size := v])
  }

  lemma StoreKeepsShape(field: Field, slot: Slot, size: nat, v: Value)
    requires SlotHasShape(field, slot) && size <= |slot.values| && (!field.rule.Repeated? ==> size < |slot.values|)
    requires HasShape(field.kind, v)
    ensures SlotHasShape(field, Store(field, slot, size, v))
  {
    hide HasShape;
  }

  lemma StoreFits(field: Field, slot: Slot, size: nat, v: Value)
    requires size <= |slot.values| && (!field.rule.Repeated? ==> size < |slot.values|)
    requires SlotFits(field, slot) && ValueFits(field.kind, v) && size < Limit(field.rule)
    ensures SlotFits(field, Store(field, slot, size, v))
  {
    hide ValueFits;
  }

  lemma StoreMakesProgress(field: Field, a: Slot, slot: Slot, size: nat, v: Value)
    requires IsArray(field.rule) && PartSame(field, a, slot, size) && size < |a.values|
    requires field.rule.FixedCount? ==> size < field.rule.count
    requires DecodedValue(field.kind, a.values[size], v)
    ensures size <= |slot.values| && (!field.rule.Repeated? ==> size < |slot.values|)
    ensures PartSame(field, a, Store(field, slot, size, v), size + 1)
  {
    hide DecodedValue;
  }

  lemma PackableNotEmpty(kind: Kind, v: Value)
    requires HasShape(kind, v) && IsPackable(kind)
    ensures EncodeValue(kind, v).Ok? && EncodeValue(kind, v).bytes != []
  {
    hide ByteOf;
  }

  lemma EncodedIsValue(kind: Kind, v: Value)
    requires HasShape(kind, v) && EncodeValue(kind, v).Ok? && !kind.Submessage? && !kind.FixedBytes?
    ensures EncodesValue(kind, v, EncodeValue(kind, v).bytes)
  {
    hide Coding.Varint;
    if kind.Bool? {
      var x: nat := v.n;
      assert x < TWO_TO_32 && EncodeValue(kind, v).bytes == Coding.Varint(x) && v.n == if x == 0 then 0 else 1;
    }
  }

  /** A packed array of elements `size` to `end`, and the slot with the elements before. */
  ghost predicate ExpectsPacked(substream: seq<byte>, field: Field, a: Slot, slot: Slot, size: nat, end: nat) {
    && SlotHasShape(field, a) && size <= end <= |a.values| && end <= Limit(field.rule) && |substream| < TWO_TO_32
    && Run(field, a, size, end) == Ok(substream) && PartSame(field, a, slot, size)
  }

  lemma NextPacked(substream: seq<byte>, field: Field, a: Slot, slot: Slot, size: nat, end: nat)
    returns (tail: seq<byte>)
    requires ExpectsPacked(substream, field, a, slot, size, end) && IsPackable(field.kind) && IsArray(field.rule)
    ensures size <= end <= |a.values| && (substream == [] <==> size == end)
    ensures substream != [] ==> size < Limit(field.rule) && ExpectsValue(substream, field.kind, a.values[size], tail)
                                && Run(field, a, size + 1, end) == Ok(tail)
  {
    if size < end {
      var v := a.values[size];
      PackableNotEmpty(field.kind, v);
      var e := Run(field, a, size + 1, end);
      assert Run(field, a, size, end) == Cat(EncodeValue(field.kind, v), e);
      tail := e.bytes;
      EncodedIsValue(field.kind, v);
    } else {
      tail := [];
    }
  }

  /** The size and the bytes of a packed array. */
  ghost predicate ExpectsRun(input: seq<byte>, field: Field, a: Slot, slot: Slot, size: nat, end: nat, s: seq<byte>,
                             tail: seq<byte>)
  {
    ExpectsPacked(s, field, a, slot, size, end) && input == Coding.Varint(|s|) + s + tail && |input| < TWO_TO_32
  }

  method DecodePackedArray(input: seq<byte>, field: Field, slot0: Slot, size0: nat, ghost a: Slot, ghost end: nat,
                           ghost s: seq<byte>, ghost tail: seq<byte>)
    returns (ok: bool, slot: Slot, size: nat, rest: seq<byte>)
    requires KindOk(field.kind) && IsPackable(field.kind) && IsArray(field.rule) && SlotHasShape(field, slot0)
    requires field.rule.Repeated? ==> size0 == |slot0.values|
    ensures ok ==> |rest| < |input| && SlotHasShape(field, slot)
    ensures ok && KindFits(field.kind) && SlotFits(field, slot0) ==> SlotFits(field, slot)
    ensures ExpectsRun(input, field, a, slot0, size0, end, s, tail) ==>
              ok && rest == tail && size == end && PartSame(field, a, slot, end)
    decreases field, 0
  {
    hide Coding.Varint, HasShape, Run, PartSame, KindOk, ExpectsValue, ExpectsPacked;
    ghost var good := ExpectsRun(input, field, a, slot0, size0, end, s, tail);
    slot, size := slot0, size0;
    var substream;
    ok, substream, rest := MakeSubstream(input, s, tail);
    if !ok {
      return;
    }
    while substream != [] && size < Limit(field.rule)
      invariant SlotHasShape(field, slot) && (field.rule.Repeated? ==> size == |slot.values|)
      invariant KindFits(field.kind) && SlotFits(field, slot0) ==> SlotFits(field, slot)
      invariant good ==> ExpectsPacked(substream, field, a, slot, size, end)
      decreases |substream|
    {
      ghost var t: seq<byte> := [];
      ghost var v := DefaultValue(field.kind);
      if good {
        t := NextPacked(substream, field, a, slot, size, end);
        v := a.values[size];
      }
      DefaultValueHasShape(field.kind);
      var value, left;
      ok, value, left := DecodeValue(substream, field.kind, true, DefaultValue(field.kind), v, t);
      if good {
        PackedGoesOn(substream, field, a, slot, size, end, value, t);
      }
      if !ok {
        return;
      }
      RoomFor(field, slot, size);
      StoreKeepsShape(field, slot, size, value);
      if KindFits(field.kind) && SlotFits(field, slot0) {
        DefaultValueFits(field.kind);
        StoreFits(field, slot, size, value);
      }
      slot := Store(field, slot, size, value);
      size := size + 1;
      substream := left;
    }
    if good {
      PackedEnds(substream, field, a, slot, size, end);
    }
    if substream != [] {
      ok := false;
    }
  }

  lemma RoomFor(field: Field, slot: Slot, size: nat)
    requires SlotHasShape(field, slot) && IsArray(field.rule) && size < Limit(field.rule)
    requires field.rule.Repeated? ==> size == |slot.values|
    ensures size <= |slot.values| && (!field.rule.Repeated? ==> size < |slot.values|)
  {
  }

  lemma PackedEnds(substream: seq<byte>, field: Field, a: Slot, slot: Slot, size: nat, end: nat)
    requires ExpectsPacked(substream, field, a, slot, size, end) && IsPackable(field.kind) && IsArray(field.rule)
    requires substream == [] || size >= Limit(field.rule)
    ensures substream == [] && size == end && PartSame(field, a, slot, size)
  {
    var _ := NextPacked(substream, field, a, slot, size, end);
  }

  lemma PackedGoesOn(substream: seq<byte>, field: Field, a: Slot, slot: Slot, size: nat, end: nat, v: Value,
                     tail: seq<byte>)
    requires ExpectsPacked(substream, field, a, slot, size, end) && IsArray(field.rule) && size < end
    requires IsPackable(field.kind)
    requires Run(field, a, size + 1, end) == Ok(tail)
    ensures size < |a.values| && HasShape(field.kind, a.values[size]) && ValueReadable(field.kind, a.values[size])
    ensures DecodedValue(field.kind, a.values[size], v) ==>
              && size <= |slot.values| && (!field.rule.Repeated? ==> size < |slot.values|)
              && ExpectsPacked(tail, field, a, Store(field, slot, size, v), size + 1, end)
  {
    hide EncodeValue, DecodedValue, PartSame;
    if DecodedValue(field.kind, a.values[size], v) {
      StoreMakesProgress(field, a, slot, size, v);
    }
  }

  /** A repeated field, one element at a time. */
  method DecodeElement(input: seq<byte>, field: Field, slot0: Slot, size0: nat, ghost a: Slot, ghost tail: seq<byte>)
    returns (ok: bool, slot: Slot, size: nat, rest: seq<byte>)
    requires KindOk(field.kind) && IsArray(field.rule) && SlotHasShape(field, slot0)
    requires field.rule.Repeated? ==> size0 == |slot0.values|
    ensures ok ==> |rest| < |input| && SlotHasShape(field, slot)
    ensures ok && KindFits(field.kind) && SlotFits(field, slot0) ==> SlotFits(field, slot)
    ensures SlotHasShape(field, a) && size0 < |a.values| && size0 < Limit(field.rule)
            && PartSame(field, a, slot0, size0) && ExpectsValue(input, field.kind, a.values[size0], tail) ==>
              && (ok <==> ValueReadable(field.kind, a.values[size0]))
              && (ok ==> rest == tail && size == size0 + 1 && PartSame(field, a, slot, size))
    decreases field, 0
  {
    hide ValueReadable, HasShape, PartSame, KindOk, ExpectsValue;
    slot, size, rest := slot0, size0 + 1, input;
    if size0 >= Limit(field.rule) {
      return false, slot, size, rest;
    }
    DefaultValueHasShape(field.kind);
    var value;
    ghost var v := if size0 < |a.values| then a.values[size0] else DefaultValue(field.kind);
    ok, value, rest := DecodeValue(input, field.kind, true, DefaultValue(field.kind), v, tail);
    if !ok {
      return;
    }
    StoreKeepsShape(field, slot0, size0, value);
    if KindFits(field.kind) && SlotFits(field, slot0) {
      DefaultValueFits(field.kind);
      StoreFits(field, slot0, size0, value);
    }
    slot := Store(field, slot0, size0, value);
    if SlotHasShape(field, a) && size0 < |a.values| && size0 < Limit(field.rule) && PartSame(field, a, slot0, size0)
       && ExpectsValue(input, field.kind, a.values[size0], tail) {
      StoreMakesProgress(field, a, slot0, size0, value);
    }
  }

  /** A required, optional or singular field. */
  method DecodeSingle(input: seq<byte>, field: Field, slot0: Slot, ghost v: Value, ghost tail: seq<byte>)
    returns (ok: bool, slot: Slot, rest: seq<byte>)
    requires KindOk(field.kind) && !IsArray(field.rule) && SlotHasShape(field, slot0)
    ensures ok ==> |rest| < |input| && SlotHasShape(field, slot)
    ensures ok && KindFits(field.kind) && SlotFits(field, slot0) ==> SlotFits(field, slot)
    ensures ExpectsValue(input, field.kind, v, tail) && IsReady(field.kind, slot0.values[0], v) ==>
              && (ok <==> ValueReadable(field.kind, v))
              && (ok ==>
                    && rest == tail && |slot.values| == 1 && MergedValue(field.kind, slot0.values[0], v, slot.values[0])
                    && (field.rule.Optional? ==> slot.has))
    decreases field, 0
  {
    hide ValueReadable, HasShape, KindOk, ExpectsValue, DecodedValue, IsReady, MergedValue;
    slot := slot0;
    var value;
    ok, value, rest := DecodeValue(input, field.kind, false, slot0.values[0], v, tail);
    slot := Slot(slot0.has || field.rule.Optional?, [value]);
  }

  lemma SlotsOfUnion(desc: Desc, slots: seq<Slot>, i: nat, slot: Slot)
    requires |slots| == |desc.fields| && i < |slots|
    ensures |SlotsAfter(desc, slots, i, slot)| == |slots| && SlotsAfter(desc, slots, i, slot)[i] == slot
    ensures forall k :: 0 <= k < |slots| && k != i ==> SlotsAfter(desc, slots, i, slot)[k].values == slots[k].values
    ensures !desc.fields[i].rule.OneOf? ==> SlotsAfter(desc, slots, i, slot) == slots[i := slot]
  {
  }

  lemma SlotsStillFit(desc: Desc, m: Message, i: nat, slot: Slot)
    requires MessageFits(desc, m) && i < |m.slots| && SlotFits(desc.fields[i], slot)
    ensures MessageFits(desc, Message(SlotsAfter(desc, m.slots, i, slot)))
  {
    hide ValueFits;
    var slots := SlotsAfter(desc, m.slots, i, slot);
    forall k | 0 <= k < |slots| ensures SlotFits(desc.fields[k], slots[k]) {
      assert SlotFits(desc.fields[k], m.slots[k]);
    }
  }

  lemma SlotAndFieldFit(desc: Desc, m: Message, i: nat)
    requires DescFits(desc) && MessageFits(desc, m) && i < |desc.fields|
    ensures KindFits(desc.fields[i].kind) && SlotFits(desc.fields[i], m.slots[i])
  {
    assert FieldFits(desc.fields[i]);
  }

  lemma SingleFits(field: Field, has: bool, v: Value)
    requires !IsArray(field.rule) && ValueFits(field.kind, v)
    ensures SlotFits(field, Slot(has, [v]))
  {
  }

  /** A field of a union. */
  method DecodeOneOf(input: seq<byte>, desc: Desc, i: nat, r0: Message, ghost v: Value, ghost tail: seq<byte>)
    returns (ok: bool, r: Message, rest: seq<byte>)
    requires DescOk(desc) && MessageHasShape(desc, r0) && i < |desc.fields| && desc.fields[i].rule.OneOf?
    ensures |r0.slots| == |desc.fields|
    ensures ok ==> |rest| < |input| && MessageHasShape(desc, r) && |r.slots| == |desc.fields|
                   && r == Message(SlotsAfter(desc, r0.slots, i, r.slots[i]))
    ensures ok && DescFits(desc) && MessageFits(desc, r0) ==> MessageFits(desc, r)
    ensures SlotHasShape(desc.fields[i], r0.slots[i])
    ensures ExpectsValue(input, desc.fields[i].kind, v, tail)
            && IsReady(desc.fields[i].kind, Present(desc.fields[i], r0.slots[i]), v) ==>
              && (ok <==> ValueReadable(desc.fields[i].kind, v))
              && (ok ==>
                    && rest == tail && |r.slots| == |desc.fields| && r.slots[i].has && |r.slots[i].values| == 1
                    && MergedValue(desc.fields[i].kind, Present(desc.fields[i], r0.slots[i]), v, r.slots[i].values[0]))
    decreases desc, 0
  {
    hide ValueReadable, HasShape, KindOk, ExpectsValue, DecodedValue, MessageFits, DescFits, KindFits, SlotsAfter,
         DefaultValue, IsReady, MergedValue;
    var field, slot0 := desc.fields[i], r0.slots[i];
    assert FieldOk(field) && SlotHasShape(field, slot0);
    var present := slot0.values[0];
    if DescFits(desc) && MessageFits(desc, r0) {
      SlotAndFieldFit(desc, r0, i);
      DefaultValueFits(field.kind);
    }
    if field.kind.Submessage? && !slot0.has {
      DefaultValueHasShape(field.kind);
      present := DefaultValue(field.kind);
    }
    var value;
    ok, value, rest := DecodeValue(input, field.kind, false, present, v, tail);
    var slots := SlotsAfter(desc, r0.slots, i, Slot(true, [value]));
    SlotsOfUnion(desc, r0.slots, i, Slot(true, [value]));
    r := Message(slots);
    if ok && DescFits(desc) && MessageFits(desc, r0) {
      SingleFits(field, true, value);
      SlotsStillFit(desc, r0, i, Slot(true, [value]));
    }
    if ok {
      assert SlotHasShape(field, Slot(true, [value]));
      forall k | 0 <= k < |slots| ensures SlotHasShape(desc.fields[k], slots[k]) {
        assert SlotHasShape(desc.fields[k], r0.slots[k]);
      }
    }
  }

  /** The input begins with the next `n` values of a field, of which `b0` holds those before. */
  ghost predicate ExpectsPart(field: Field, a: Slot, j: nat, n: nat, wireType: nat, p: seq<byte>, input: seq<byte>,
                              tail: seq<byte>, b0: Slot, size: nat)
  {
    && SlotHasShape(field, a) && IsPart(field, a, j, n, wireType, p) && ValueOk(field.kind, a.values[j])
    && input == p + tail && |input| < TWO_TO_32
    && (IsArray(field.rule) ==> PartSame(field, a, b0, j) && (field.rule.FixedCount? ==> size == j))
    && (!IsArray(field.rule) ==> |b0.values| == 1 && IsReady(field.kind, Present(field, b0), a.values[0]))
  }

  /** `decode_static_field`; `size0` counts the elements of a fixed-count array so far. */
  method DecodeStaticField(input: seq<byte>, desc: Desc, i: nat, wireType: nat, r0: Message, size0: nat,
                           ghost a: Slot, ghost j: nat, ghost n: nat, ghost p: seq<byte>, ghost tail: seq<byte>)
    returns (ok: bool, r: Message, size: nat, rest: seq<byte>)
    requires DescOk(desc) && MessageHasShape(desc, r0) && i < |desc.fields|
    ensures |r0.slots| == |desc.fields|
    ensures ok ==> |rest| < |input| && MessageHasShape(desc, r) && |r.slots| == |desc.fields|
                   && r == Message(SlotsAfter(desc, r0.slots, i, r.slots[i]))
    ensures ok && DescFits(desc) && MessageFits(desc, r0) ==> MessageFits(desc, r)
    ensures ExpectsPart(desc.fields[i], a, j, n, wireType, p, input, tail, r0.slots[i], size0) ==>
              && (ok <==> ValueReadable(desc.fields[i].kind, a.values[j]))
              && (ok ==>
                    && rest == tail && |r.slots| == |desc.fields|
                    && PartAfter(desc.fields[i], r0.slots[i], a, j + n, r.slots[i])
                    && (desc.fields[i].rule.FixedCount? ==> size == j + n))
    decreases desc, 1
  {
    hide ValueReadable, HasShape, KindOk, ExpectsValue, DecodedValue, EncodeValue, Run, PartSame, ValueOk, EncodesValue,
         ExpectsRun, ExpectsPart, MessageFits, DescFits, KindFits, SlotFits, SlotsAfter, IsReady, MergedValue;
    var field, slot0 := desc.fields[i], r0.slots[i];
    assert FieldOk(field) && SlotHasShape(field, slot0);
    if DescFits(desc) && MessageFits(desc, r0) {
      SlotAndFieldFit(desc, r0, i);
    }
    ghost var good := ExpectsPart(field, a, j, n, wireType, p, input, tail, slot0, size0);
    ghost var s: seq<byte>, v := [], DefaultValue(field.kind);
    if good {
      s := PartIs(field, a, j, n, wireType, p, input, tail, slot0, size0);
      v := a.values[j];
    }
    r, size := r0, size0;
    if field.rule.OneOf? {
      ok, r, rest := DecodeOneOf(input, desc, i, r0, v, tail);
      if good && ok {
        SingleIsMerged(field, slot0, a, r.slots[i]);
      }
      return;
    }
    var slot;
    if IsArray(field.rule) {
      ok, slot, size, rest := DecodeArray(input, field, wireType, slot0, size0, a, j, n, p, s, tail);
    } else {
      ok, slot, rest := DecodeSingle(input, field, slot0, v, tail);
      if good && ok {
        SingleIsMerged(field, slot0, a, slot);
      }
    }
    r := Message(r0.slots[i := slot]);
    if ok {
      SlotKeepsShape(desc, r0, i, slot);
      SlotsOfUnion(desc, r0.slots, i, slot);
      if DescFits(desc) && MessageFits(desc, r0) {
        SlotsStillFit(desc, r0, i, slot);
      }
    }
  }

  /** An array: `size0` is its count where the struct has none. */
  method DecodeArray(input: seq<byte>, field: Field, wireType: nat, slot0: Slot, size0: nat, ghost a: Slot,
                     ghost j: nat, ghost n: nat, ghost p: seq<byte>, ghost s: seq<byte>, ghost tail: seq<byte>)
    returns (ok: bool, slot: Slot, size: nat, rest: seq<byte>)
    requires KindOk(field.kind) && IsArray(field.rule) && SlotHasShape(field, slot0)
    ensures ok ==> |rest| < |input| && SlotHasShape(field, slot)
    ensures ok && KindFits(field.kind) && SlotFits(field, slot0) ==> SlotFits(field, slot)
    ensures ExpectsPart(field, a, j, n, wireType, p, input, tail, slot0, size0)
            && (IsPackable(field.kind) && wireType == WIRE_STRING ==>
                  ExpectsRun(input, field, a, slot0, j, j + n, s, tail)) ==>
              && (ok <==> ValueReadable(field.kind, a.values[j]))
              && (ok ==>
                    && rest == tail && PartSame(field, a, slot, j + n)
                    && (field.rule.FixedCount? ==> size == j + n))
    decreases field, 1
  {
    hide ValueReadable, HasShape, KindOk, ExpectsValue, DecodedValue, EncodeValue, Run, PartSame, ValueOk, EncodesValue,
         ExpectsRun, ExpectsPart, KindFits, SlotFits;
    var count := if field.rule.Repeated? then |slot0.values| else size0;
    if ExpectsPart(field, a, j, n, wireType, p, input, tail, slot0, size0) {
      var _ := PartIs(field, a, j, n, wireType, p, input, tail, slot0, size0);
    }
    if wireType == WIRE_STRING && IsPackable(field.kind) {
      ok, slot, size, rest := DecodePackedArray(input, field, slot0, count, a, j + n, s, tail);
    } else {
      ok, slot, size, rest := DecodeElement(input, field, slot0, count, a, tail);
    }
  }

  lemma SlotKeepsShape(desc: Desc, r: Message, i: nat, slot: Slot)
    requires MessageHasShape(desc, r) && i < |r.slots| && SlotHasShape(desc.fields[i], slot)
    ensures MessageHasShape(desc, Message(r.slots[i := slot]))
  {
    hide SlotHasShape;
  }

  lemma SingleIsMerged(field: Field, b0: Slot, a: Slot, slot: Slot)
    requires !IsArray(field.rule) && SlotHasShape(field, a) && |slot.values| == 1 && |b0.values| == 1
    requires HasShape(field.kind, a.values[0])
    requires MergedValue(field.kind, Present(field, b0), a.values[0], slot.values[0])
    requires field.rule.Optional? || field.rule.OneOf? ==> slot.has
    ensures PartAfter(field, b0, a, 1, slot)
  {
  }

  /** What the unit says, rule by rule. */
  lemma PartIs(field: Field, a: Slot, j: nat, n: nat, wireType: nat, p: seq<byte>, input: seq<byte>, tail: seq<byte>,
               b0: Slot, size: nat) returns (s: seq<byte>)
    requires ExpectsPart(field, a, j, n, wireType, p, input, tail, b0, size)
    ensures SlotHasShape(field, a) && n > 0 && j < |a.values| && HasShape(field.kind, a.values[j])
    ensures field.rule.Repeated? ==> |b0.values| == j
    ensures field.rule.FixedCount? ==> size == j
    ensures IsArray(field.rule) && IsPackable(field.kind) && wireType == WIRE_STRING ==>
              ExpectsRun(input, field, a, b0, j, j + n, s, tail) && ValueReadable(field.kind, a.values[j])
    ensures !(IsArray(field.rule) && IsPackable(field.kind) && wireType == WIRE_STRING) ==>
              && n == 1 && ExpectsValue(input, field.kind, a.values[j], tail)
              && (IsArray(field.rule) ==> j < Limit(field.rule) && PartSame(field, a, b0, j))
    ensures !IsArray(field.rule) ==> j == 0
    ensures !IsArray(field.rule) ==> |b0.values| == 1 && IsReady(field.kind, Present(field, b0), a.values[0])
  {
    hide EncodeValue, DecodedValue, ValueOk, IsReady;
    if IsArray(field.rule) && IsPackable(field.kind) && wireType == WIRE_STRING {
      s := Run(field, a, j, j + n).bytes;
    } else {
      s := [];
      assert EncodesValue(field.kind, a.values[j], p);
    }
  }

  /** What `pb_decode_noinit` gives to `decode_static_field` for a unit of the message. */
  lemma TakePart(desc: Desc, m: Message, r0: Message, done: seq<nat>, rest: seq<byte>, r: Message, seen: set<nat>,
                 t: Tracking, complete: bool, i: nat, n: nat, wireType: nat, p: seq<byte>, tail: seq<byte>, size: nat)
    requires At(desc, m, r0, done, rest, r, seen, t, complete)
    requires UnitFirst(desc, m, done, rest, i, n, wireType, p, tail) && MessageHasShape(desc, r)
    requires desc.fields[i].rule.FixedCount? ==> size == done[i]
    ensures |m.slots| == |r.slots| == |done| == |desc.fields|
    ensures ExpectsPart(desc.fields[i], m.slots[i], done[i], n, wireType, p, p + tail, tail, r.slots[i], size)
    ensures done[i] < |m.slots[i].values| && HasShape(desc.fields[i].kind, m.slots[i].values[done[i]])
    ensures ElementReadable(desc, m, i, done[i]) <==> ValueReadable(desc.fields[i].kind, m.slots[i].values[done[i]])
    ensures MessageReadable(desc, m) ==> ElementReadable(desc, m, i, done[i])
    ensures |r0.slots| == |desc.fields| && SlotHasShape(desc.fields[i], m.slots[i])
    ensures !IsArray(desc.fields[i].rule) && desc.fields[i].kind.Submessage? ==> r.slots[i] == r0.slots[i]
  {
    hide Encodes, IsPart, ReadSoFar, SeenIs, Tracks, ElementReadable, ValueReadable, MessageReadable, DescOk, Restored,
         Ready, IsReady, MergedSlot, PartSame, ValueOk, HasShape, DefaultValue;
    UnitReadable(desc, m, i, done[i], n, wireType, p);
    TakeSlot(desc, m, r0, done, r, complete, i, n, wireType, p);
  }

  lemma TakeSlot(desc: Desc, m: Message, r0: Message, done: seq<nat>, r: Message, complete: bool, i: nat, n: nat,
                 wireType: nat, p: seq<byte>)
    requires Partway(desc, m, done) && MessageOk(desc, m) && Restored(desc, m, r0, done, r, complete) && i < |done|
    requires Ready(desc, r0, m) && MessageHasShape(desc, r) && IsUnit(desc, m, i, done[i], n, wireType, p)
    ensures |r.slots| == |m.slots| == |desc.fields| == |r0.slots|
    ensures done[i] < |m.slots[i].values| && ValueOk(desc.fields[i].kind, m.slots[i].values[done[i]])
    ensures IsArray(desc.fields[i].rule) ==> PartSame(desc.fields[i], m.slots[i], r.slots[i], done[i])
    ensures !IsArray(desc.fields[i].rule) ==>
              && done[i] == 0 && |r.slots[i].values| == 1 && HasShape(desc.fields[i].kind, m.slots[i].values[0])
              && IsReady(desc.fields[i].kind, Present(desc.fields[i], r.slots[i]), m.slots[i].values[0])
    ensures !IsArray(desc.fields[i].rule) && desc.fields[i].kind.Submessage? ==> r.slots[i] == r0.slots[i]
  {
    hide DecodedValue, EncodesValue, Run, ValueOk, IsReady, Ready, MergedSlot, HasShape, DefaultValue, PartSame, IsPart;
    UnitIsThere(desc, m, i, done[i], n, wireType, p);
    assert SlotSoFar(desc, m, r0, done, i, r.slots[i], complete);
    assert SlotOk(desc.fields[i], m.slots[i]) && SlotHasShape(desc.fields[i], m.slots[i]);
    assert SlotHasShape(desc.fields[i], r.slots[i]);
    if IsArray(desc.fields[i].rule) {
      ArrayBegins(desc, m, r0, r, i, done[i]);
    } else {
      assert done[i] == 0 && HasShape(desc.fields[i].kind, m.slots[i].values[0]);
      if desc.fields[i].kind.Submessage? {
        NothingStored(desc, m, done, i, complete);
      }
      SingleIsReady(desc, m, r0, r, i);
    }
  }

  /** Nothing of the union of a submessage that comes can have come before, or be superseded. */
  lemma NothingStored(desc: Desc, m: Message, done: seq<nat>, i: nat, complete: bool)
    requires Partway(desc, m, done) && MessageOk(desc, m) && i < |done| && Total(desc, m, i) > 0 && done[i] == 0
    requires desc.fields[i].kind.Submessage?
    ensures desc.fields[i].rule.OneOf? ==> !UnionToCome(desc, m, done, i, complete) && !UnionHasCome(desc, done, i)
    ensures !Supersedes(desc, i, i)
  {
    hide HasShape, ValueOk;
  }

  lemma ArrayBegins(desc: Desc, m: Message, r0: Message, r: Message, i: nat, j: nat)
    requires MessageHasShape(desc, m) && MessageHasShape(desc, r) && Ready(desc, r0, m)
    requires |r0.slots| == |m.slots| && i < |m.slots| && IsArray(desc.fields[i].rule) && Comes(desc, m, i)
    requires if j > 0 then PartSame(desc.fields[i], m.slots[i], r.slots[i], j) else r.slots[i] == r0.slots[i]
    ensures PartSame(desc.fields[i], m.slots[i], r.slots[i], j)
  {
    hide DecodedValue, HasShape;
    assert SlotHasShape(desc.fields[i], r.slots[i]) && SlotHasShape(desc.fields[i], m.slots[i]);
  }

  lemma SingleIsReady(desc: Desc, m: Message, r0: Message, r: Message, i: nat)
    requires MessageHasShape(desc, m) && MessageHasShape(desc, r) && Ready(desc, r0, m)
    requires |r0.slots| == |m.slots| && i < |m.slots| && !IsArray(desc.fields[i].rule) && Comes(desc, m, i)
    requires desc.fields[i].kind.Submessage? ==> r.slots[i] == r0.slots[i]
    ensures |r.slots[i].values| == 1 && HasShape(desc.fields[i].kind, m.slots[i].values[0])
    ensures IsReady(desc.fields[i].kind, Present(desc.fields[i], r.slots[i]), m.slots[i].values[0])
  {
    var field, a, b := desc.fields[i], m.slots[i], r.slots[i];
    assert SlotHasShape(field, b) && SlotHasShape(field, a) && HasShape(field.kind, a.values[0]);
    if field.kind.Submessage? {
      assert SlotReady(field, b, a);
      DefaultIsReady(field.kind.desc, a.values[0].message);
    }
  }

  /** What was there before matters for a submessage only. */
  lemma SameBefore(field: Field, b0: Slot, b1: Slot, a: Slot, j: nat, b: Slot)
    requires SlotHasShape(field, a) && (!IsArray(field.rule) && field.kind.Submessage? ==> b0 == b1)
    ensures PartAfter(field, b0, a, j, b) ==> PartAfter(field, b1, a, j, b)
  {
  }

  /** And for a value that will be superseded. */
  lemma OldPart(desc: Desc, m: Message, done: seq<nat>, rest: seq<byte>, i: nat, k: nat, v: Value, p: seq<byte>,
                tail: seq<byte>, complete: bool, b0: Slot, size: nat) returns (a: Slot)
    requires DescOk(desc) && MessageOk(desc, m) && Partway(desc, m, done) && |rest| < TWO_TO_32
    requires OldFirst(desc, m, done, rest, i, k, v, p, tail, complete) && |b0.values| == 1
    ensures i < |desc.fields| && a == Slot(true, [v]) && !IsArray(desc.fields[i].rule)
    ensures ExpectsPart(desc.fields[i], a, 0, 1, WireType(desc.fields[i].kind), p, p + tail, tail, b0, size)
    ensures HasShape(desc.fields[i].kind, v) && ValueReadable(desc.fields[i].kind, v)
  {
    hide EncodeValue, ValueReadable, HasShape;
    OldIsAlone(desc, m, done, i, k, complete);
    a := Slot(true, [v]);
    assert SlotHasShape(desc.fields[i], a);
    assert EncodesValue(desc.fields[i].kind, v, p);
    assert IsPart(desc.fields[i], a, 0, 1, WireType(desc.fields[i].kind), p);
  }

  /** The tag and the wire type of what is next. */
  ghost predicate TagIs(desc: Desc, m: Message, done: seq<nat>, rest: seq<byte>, complete: bool, next: Next,
                        p: seq<byte>, tail: seq<byte>, tag: nat, wire: nat)
    requires Partway(desc, m, done)
  {
    match next
    case End => EndsHere(desc, m, done, complete) && (rest == [] || NatOf(rest[0]) == 0)
    case Skip(x, w) => tag == x && wire == w && UnknownFirst(desc, rest, x, w, p, tail)
    case Old(i, k, v) =>
      && OldFirst(desc, m, done, rest, i, k, v, p, tail, complete)
      && tag == desc.fields[i].tag && wire == WireType(desc.fields[i].kind)
    case Take(i, n, w) =>
      UnitFirst(desc, m, done, rest, i, n, w, p, tail) && tag == desc.fields[i].tag && wire == w
  }

  lemma NextHere(desc: Desc, m: Message, r0: Message, done: seq<nat>, rest: seq<byte>, r: Message, seen: set<nat>,
                 t: Tracking, complete: bool) returns (next: Next, p: seq<byte>, tail: seq<byte>, tag: nat, wire: nat)
    requires At(desc, m, r0, done, rest, r, seen, t, complete)
    ensures Partway(desc, m, done) && TagIs(desc, m, done, rest, complete, next, p, tail, tag, wire)
    ensures next.End? ==> (rest == [] || NatOf(rest[0]) == 0) && EndsHere(desc, m, done, complete)
    ensures !next.End? ==> 0 < tag < 0x2000_0000 && wire < 8 && rest == TagBytes(tag, wire) + (p + tail)
    ensures next.Skip? ==>
              && IsPayload(wire, p) && (forall k :: 0 <= k < |desc.fields| ==> desc.fields[k].tag != tag)
              && At(desc, m, r0, done, tail, r, seen, t, complete)
    ensures next.Old? ==>
              && next.i < |desc.fields| && desc.fields[next.i].tag == tag && Encodes(desc, m, done, tail, complete)
              && OldFirst(desc, m, done, rest, next.i, next.k, next.v, p, tail, complete)
    ensures next.Take? ==>
              && next.i < |done| == |desc.fields| && desc.fields[next.i].tag == tag
              && UnitFirst(desc, m, done, rest, next.i, next.n, wire, p, tail)
              && Encodes(desc, m, done[next.i := done[next.i] + next.n], tail, complete)
  {
    hide Encodes, EncodesValue, Run, EndsHere, Restored, ReadSoFar, SeenIs, Tracks, MessageOk, HasShape, IsPayload;
    next, p, tail := WhatIsNext(desc, m, done, rest, complete);
    match next {
      case End => tag, wire := 1, 0;
      case Skip(x, w) => tag, wire := x, w;
      case Old(i, k, v) => tag, wire := desc.fields[i].tag, WireType(desc.fields[i].kind);
      case Take(i, n, w) => tag, wire := desc.fields[i].tag, w;
    }
    if next.Old? || next.Take? {
      assert FieldOk(desc.fields[next.i]);
    }
    if next.Take? {
      assert IsPart(desc.fields[next.i], m.slots[next.i], done[next.i], next.n, wire, p);
    }
  }

  /** The field that has been found is that of the unit, and no array of a fixed count is left incomplete. */
  lemma FieldHere(desc: Desc, m: Message, r0: Message, done: seq<nat>, rest: seq<byte>, r: Message, seen: set<nat>,
                  t: Tracking, complete: bool, next: Next, p: seq<byte>, tail: seq<byte>, tag: nat, wire: nat, pos: nat)
    requires At(desc, m, r0, done, rest, r, seen, t, complete) && Partway(desc, m, done)
    requires TagIs(desc, m, done, rest, complete, next, p, tail, tag, wire)
    requires pos < |desc.fields| && desc.fields[pos].tag == tag && !next.End?
    ensures (next.Old? || next.Take?) && next.i == pos
    ensures next.Take? ==> next.wireType == wire
    ensures next.Old? ==> wire == WireType(desc.fields[pos].kind)
    ensures TrackField(desc, pos, t) != t ==> Complete(desc, t)
    ensures next.Take? && desc.fields[pos].rule.FixedCount? ==> TrackField(desc, pos, t) == Tracking(pos, done[pos])
  {
    hide Encodes, IsUnit, EndsHere, Restored, ReadSoFar, SeenIs, Tracks, HasShape, IsPayload, TrackField, Complete,
         MessageOk, IsWritten;
    if next.Old? {
      OneFieldPerTag(desc, next.i, pos);
      OldIsAlone(desc, m, done, next.i, next.k, complete);
      NotTracked(desc, pos, t);
    } else if next.Take? {
      OneFieldPerTag(desc, next.i, pos);
      TrackedHere(desc, m, done, rest, t, pos, next.n, wire, p, tail);
    }
  }

  lemma NotTracked(desc: Desc, i: nat, t: Tracking)
    requires i < |desc.fields| && !desc.fields[i].rule.FixedCount?
    ensures TrackField(desc, i, t) == t
  {
  }

  /** What `decode_static_field` is given for what is next. */
  lemma PartHere(desc: Desc, m: Message, r0: Message, done: seq<nat>, rest: seq<byte>, r: Message, seen: set<nat>,
                 t: Tracking, complete: bool, next: Next, p: seq<byte>, tail: seq<byte>, size: nat)
    returns (a: Slot, j: nat, n: nat)
    requires At(desc, m, r0, done, rest, r, seen, t, complete) && (next.Old? || next.Take?) && MessageHasShape(desc, r)
    requires next.Old? ==> OldFirst(desc, m, done, rest, next.i, next.k, next.v, p, tail, complete)
    requires next.Take? ==> UnitFirst(desc, m, done, rest, next.i, next.n, next.wireType, p, tail)
    requires next.i < |desc.fields| && next.Take? && desc.fields[next.i].rule.FixedCount? ==>
               size == done[next.i]
    ensures |m.slots| == |r.slots| == |done| == |desc.fields| && next.i < |desc.fields|
    ensures var w := if next.Take? then next.wireType else WireType(desc.fields[next.i].kind);
            ExpectsPart(desc.fields[next.i], a, j, n, w, p, p + tail, tail, r.slots[next.i], size)
    ensures j < |a.values| && HasShape(desc.fields[next.i].kind, a.values[j])
    ensures next.Old? ==>
              ValueReadable(desc.fields[next.i].kind, a.values[j]) && !desc.fields[next.i].rule.FixedCount?
    ensures next.Take? ==> a == m.slots[next.i] && j == done[next.i] && n == next.n
    ensures next.Take? ==>
              && |r0.slots| == |desc.fields| && SlotHasShape(desc.fields[next.i], a)
              && (!IsArray(desc.fields[next.i].rule) && desc.fields[next.i].kind.Submessage? ==>
                    r.slots[next.i] == r0.slots[next.i])
    ensures next.Take? ==>
              && (ElementReadable(desc, m, next.i, j) <==> ValueReadable(desc.fields[next.i].kind, a.values[j]))
              && (MessageReadable(desc, m) ==> ElementReadable(desc, m, next.i, j))
  {
    hide Encodes, IsPart, ReadSoFar, SeenIs, Tracks, ElementReadable, ValueReadable, MessageReadable, DescOk, Restored,
         HasShape, ExpectsPart, UnitFirst;
    RestoredLength(desc, m, r0, done, r, complete);
    if next.Take? {
      TakePart(desc, m, r0, done, rest, r, seen, t, complete, next.i, next.n, next.wireType, p, tail, size);
      a, j, n := m.slots[next.i], done[next.i], next.n;
    } else {
      OldIsAlone(desc, m, done, next.i, next.k, complete);
      OneValue(desc, r, next.i);
      a := OldPart(desc, m, done, rest, next.i, next.k, next.v, p, tail, complete, r.slots[next.i], size);
      j, n := 0, 1;
    }
  }

  lemma OneValue(desc: Desc, r: Message, i: nat)
    requires MessageHasShape(desc, r) && i < |r.slots| && !IsArray(desc.fields[i].rule)
    ensures |r.slots[i].values| == 1
  {
    assert SlotHasShape(desc.fields[i], r.slots[i]);
  }

  lemma RestoredLength(desc: Desc, m: Message, r0: Message, done: seq<nat>, r: Message, complete: bool)
    requires Partway(desc, m, done) && Restored(desc, m, r0, done, r, complete)
    ensures |r.slots| == |m.slots| == |done| == |desc.fields|
  {
  }

  lemma EndOfInput(desc: Desc, m: Message, r0: Message, done: seq<nat>, r: Message, seen: set<nat>, t: Tracking,
                   complete: bool)
    requires At(desc, m, r0, done, [], r, seen, t, complete)
    ensures Partway(desc, m, done) && EndsHere(desc, m, done, complete)
  {
    hide IsUnit, IsPart, EndsHere, OneAtATime, IsUnknown;
    var next, p, tail := WhatIsNext(desc, m, done, [], complete);
  }

  /** Where decoding stands when the input has ended. */
  lemma EndHere(desc: Desc, m: Message, r0: Message, done: seq<nat>, rest: seq<byte>, r: Message, seen: set<nat>,
                t: Tracking, complete: bool)
    requires At(desc, m, r0, done, rest, r, seen, t, complete) && Partway(desc, m, done)
    requires EndsHere(desc, m, done, complete)
    ensures complete ==>
              && MergedMessage(desc, r0, m, r) && MessageReadable(desc, m) && Complete(desc, t)
              && forall n: nat :: n < RequiredBefore(desc, |desc.fields|) && n < MAX_REQUIRED_FIELDS ==> n in seen
    ensures !complete ==>
              || !Complete(desc, t)
              || exists n: nat :: n < RequiredBefore(desc, |desc.fields|) && n < MAX_REQUIRED_FIELDS && n !in seen
    ensures forall n :: n in seen ==> n < RequiredBefore(desc, |desc.fields|) && n < MAX_REQUIRED_FIELDS
  {
    hide EndsHere, Complete, Encodes, DescOk, MessageOk, Restored, ReadSoFar, Tracks;
    if complete {
      EndsComplete(desc, m, r0, done, rest, r, seen, t);
    } else {
      EndsIncomplete(desc, m, r0, done, rest, r, seen, t);
    }
  }

  /** `pb_decode_noinit` */
  method DecodeNoinit(input: seq<byte>, desc: Desc, r0: Message, ghost m: Message, ghost complete: bool)
      returns (ok: bool, r: Message)
    requires DescOk(desc) && MessageHasShape(desc, r0)
    ensures ok ==> MessageHasShape(desc, r)
    ensures ok && DescFits(desc) && MessageFits(desc, r0) ==> MessageFits(desc, r)
    ensures ExpectsMessage(input, desc, m, complete) && Ready(desc, r0, m) ==>
              && (ok <==> complete && MessageReadable(desc, m))
              && (ok ==> MergedMessage(desc, r0, m, r))
    decreases desc, 2
  {
    hide *;
    ExpectsShape(input, desc, m, complete);
    ghost var good := ExpectsMessage(input, desc, m, complete) && Ready(desc, r0, m);
    var seen: set<nat>, t, rest, pos: nat := {}, NoField, input, 0;
    r := r0;
    ghost var done: seq<nat> := Zeros(|m.slots|);
    ghost var broke := false;
    if good {
      BeginsHere(desc, m, r0, input, complete);
    }
    while rest != []
      invariant MessageHasShape(desc, r) && (pos < |desc.fields| || pos == 0)
      invariant DescFits(desc) && MessageFits(desc, r0) ==> MessageFits(desc, r)
      invariant good ==> At(desc, m, r0, done, rest, r, seen, t, complete)
      invariant !broke
      decreases |rest|
    {
      ghost var next, p: seq<byte>, tail: seq<byte>, tag, wire := End, [], [], 1, 0;
      ghost var a, j: nat, n: nat := Slot(false, []), 0, 0;
      ghost var before, seen0, t0, r1 := rest, seen, t, r;
      if good {
        next, p, tail, tag, wire := NextHere(desc, m, r0, done, rest, r, seen, t, complete);
      }
      var wireType, number, eof;
      ok, eof, wireType, number, rest := DecodeTag(rest, tag, wire, p + tail);
      if !ok {
        if eof {
          if good {
            EndHere(desc, m, r0, done, before, r, seen, t, complete);
          }
          broke := true;
          break;
        }
        return false, r;
      }
      var found;
      found, pos := FindField(desc, pos, number);
      if !found {
        ok, rest := SkipField(rest, wireType, p, tail);
        if !ok {
          return false, r;
        }
        continue;
      }
      if good {
        FieldHere(desc, m, r0, done, before, r1, seen0, t0, complete, next, p, tail, tag, wire, pos);
      }
      if TrackField(desc, pos, t) != t && !Complete(desc, t) {
        return false, r;
      }
      t := TrackField(desc, pos, t);
      seen := SeenAfter(desc, pos, seen);
      var size := if t.Tracking? then t.size else 0;
      if good {
        a, j, n := PartHere(desc, m, r0, done, before, r1, seen0, t0, complete, next, p, tail, size);
      }
      ok, r, size, rest := DecodeStaticField(rest, desc, pos, wireType, r, size, a, j, n, p, tail);
      if !ok {
        return false, r;
      }
      t := Received(desc, pos, t, size);
      if good {
        if next.Take? {
          SameBefore(desc.fields[pos], r1.slots[pos], r0.slots[pos], a, j + n, r.slots[pos]);
          UnitTaken(desc, m, r0, done, before, r1, seen0, t0, complete, next.i, n, wire, p, tail, r.slots[pos],
                    size);
          done := done[next.i := done[next.i] + n];
        } else {
          OldTaken(desc, m, r0, done, before, r1, seen0, t0, complete, next.i, next.k, next.v, p, tail, r.slots[pos],
                   size);
        }
      }
    }
    if good && !broke {
      EndOfInput(desc, m, r0, done, r, seen, t, complete);
      EndHere(desc, m, r0, done, rest, r, seen, t, complete);
    }
    if !Complete(desc, t) {
      return false, r;
    }
    var required := RequiredBefore(desc, |desc.fields|);
    var missing := MissingRequired(required, seen);
    return !missing, r;
  }

  lemma BeginsHere(desc: Desc, m: Message, r0: Message, input: seq<byte>, complete: bool)
    requires DescOk(desc) && ExpectsMessage(input, desc, m, complete) && Ready(desc, r0, m)
    ensures At(desc, m, r0, Zeros(|m.slots|), input, r0, {}, NoField, complete)
  {
    hide DescOk, MessageHasShape, MessageOk, EncodesMessage, At, Ready;
    BeginsAt(desc, m, r0, input, complete);
  }

  /** The check of `fields_seen` against the bits of the first required fields. */
  method MissingRequired(required: nat, seen: set<nat>) returns (missing: bool)
    ensures (forall n :: n in seen ==> n < required && n < MAX_REQUIRED_FIELDS) ==>
              (missing <==> exists n: nat :: n < required && n < MAX_REQUIRED_FIELDS && n !in seen)
  {
    var count := if required > MAX_REQUIRED_FIELDS then MAX_REQUIRED_FIELDS else required;
    if count > 0 {
      var all: set<nat> := {};
      for n := 0 to count
        invariant forall k: nat :: k in all <==> k < n
      {
        all := all + {n};
      }
      missing := seen != all;
    } else {
      missing := false;
    }
  }
}
