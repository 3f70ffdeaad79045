/** Message descriptors and messages of nanopb (pb.h), for statically allocated fields.  A message is a tree of values
in place of a C struct. */
module PbTypes {
  import opened Common
  import opened Bytes
  import opened Coding

  /** `PB_LTYPE`; a width is `data_size` in bytes, a maximum the room in the struct. */
  datatype Kind =
    | Bool
    | Varint(width: nat)
    | UVarint(width: nat)
    | SVarint(width: nat)
    | Fixed32
    | Fixed64
    | Bytes(max: nat)
    | Str(max: nat)
    | FixedBytes(size: nat)
    | Submessage(desc: Desc)

  /** `PB_HTYPE` and whether there is a size field: `Optional` has a has-flag and `Singular` (proto3) has none,
      `Repeated` has a count and `FixedCount` has none. */
  datatype Rule = Required | Optional | Singular | Repeated(max: nat) | FixedCount(count: nat) | OneOf(group: nat)

  /** `init` is the default value that a descriptor may give in `ptr` to a field that is no submessage. */
  datatype Field = Field(tag: nat, rule: Rule, kind: Kind, init: Option<Value>)

  datatype Desc = Desc(fields: seq<Field>)

  /** A number as the C type has it; fixed-size numbers as their bits. */
  datatype Value = Number(n: int) | Blob(bytes: seq<byte>) | Record(message: Message)

  /** `has` is the has-flag of an optional field, and whether a field of a union is the one that is stored; the values
      are the elements up to the count, or the only value. */
  datatype Slot = Slot(has: bool, values: seq<Value>)

  datatype Message = Message(slots: seq<Slot>)

  predicate IsPackable(kind: Kind) {
    kind.Bool? || kind.Varint? || kind.UVarint? || kind.SVarint? || kind.Fixed32? || kind.Fixed64?
  }

  predicate IsArray(rule: Rule) {
    rule.Repeated? || rule.FixedCount?
  }

  /** 2 to the power of the bits of a width. */
  function Values(width: nat): nat {
    match width
    case 1 => 0x100
    case 2 => 0x1_0000
    case 4 => 0x1_0000_0000
    case _ => 0x1_0000_0000_0000_0000
  }

  predicate IsWidth(width: nat) {
    width == 1 || width == 2 || width == 4 || width == 8
  }

  predicate FitsSigned(n: int, width: nat) {
    -(Values(width) / 2) <= n < Values(width) / 2
  }

  // ----- the shape that the C struct gives to a message -----

  ghost predicate HasShape(kind: Kind, v: Value)
    decreases v
  {
    match kind
    case Bool => v == Number(0) || v == Number(1)
    case Varint(w) => IsWidth(w) && v.Number? && FitsSigned(v.n, w)
    case UVarint(w) => IsWidth(w) && v.Number? && 0 <= v.n < Values(w)
    case SVarint(w) => IsWidth(w) && v.Number? && FitsSigned(v.n, w)
    case Fixed32 => v.Number? && 0 <= v.n < TWO_TO_32
    case Fixed64 => v.Number? && 0 <= v.n < TWO_TO_64
    case Bytes(_) => v.Blob?
    case Str(_) => v.Blob?
    case FixedBytes(size) => v.Blob? && |v.bytes| == size
    case Submessage(desc) => v.Record? && MessageHasShape(desc, v.message)
  }

  ghost predicate SlotHasShape(field: Field, slot: Slot)
    decreases slot
  {
    && (forall j :: 0 <= j < |slot.values| ==> HasShape(field.kind, slot.values[j]))
    && match field.rule
       case Repeated(_) => true
       case FixedCount(count) => |slot.values| == count
       case _ => |slot.values| == 1
  }

  ghost predicate MessageHasShape(desc: Desc, m: Message)
    decreases m
  {
    |m.slots| == |desc.fields| && forall i :: 0 <= i < |m.slots| ==> SlotHasShape(desc.fields[i], m.slots[i])
  }

  // ----- what is encoded -----

  datatype Encoded = Error | Ok(bytes: seq<byte>)

  function Cat(a: Encoded, b: Encoded): Encoded {
    if a.Ok? && b.Ok? then Ok(a.bytes + b.bytes) else Error
  }

  predicate IsNul(b: byte) {
    b == 0
  }

  lemma CatAssociates(a: Encoded, b: Encoded, c: Encoded)
    ensures Cat(a, Cat(b, c)) == Cat(Cat(a, b), c)
  {
    if a.Ok? && b.Ok? && c.Ok? {
      assert a.bytes + (b.bytes + c.bytes) == (a.bytes + b.bytes) + c.bytes;
    }
  }

  /** The characters of a string up to the first NUL, or all the room there is. */
  function CString(s: seq<byte>, max: nat): seq<byte> {
    if s == [] || max == 0 || IsNul(s[0]) then [] else [s[0]] + CString(s[1..], max - 1)
  }

  /** A signed number as `uint64_t`. */
  function Unsigned64(n: int): nat
    requires FitsSigned(n, 8)
  {
    if n < 0 then n + TWO_TO_64 else n
  }

  /** The zigzag form of a signed number. */
  function ZigZag(n: int): nat
    requires FitsSigned(n, 8)
  {
    if n < 0 then -2 * n - 1 else 2 * n
  }

  const WIRE_VARINT := 0
  const WIRE_64BIT := 1
  const WIRE_STRING := 2
  const WIRE_32BIT := 5

  function WireType(kind: Kind): nat {
    if kind.Fixed32? then WIRE_32BIT
    else if kind.Fixed64? then WIRE_64BIT
    else if IsPackable(kind) then WIRE_VARINT
    else WIRE_STRING
  }

  function TagBytes(tag: nat, wireType: nat): seq<byte> {
    Coding.Varint(tag * 8 + wireType)
  }

  function Prefixed(e: Encoded): Encoded {
    match e case Error => Error case Ok(bytes) => Ok(Coding.Varint(|bytes|) + bytes)
  }

  function EncodeValue(kind: Kind, v: Value): Encoded
    requires HasShape(kind, v)
    decreases v
  {
    match kind
    case Bool => Ok(Coding.Varint(if v.n == 0 then 0 else 1))
    case Varint(w) => WiderFits(v.n, w); Ok(Coding.Varint(Unsigned64(v.n)))
    case UVarint(_) => Ok(Coding.Varint(v.n))
    case SVarint(w) => WiderFits(v.n, w); Ok(Coding.Varint(ZigZag(v.n)))
    case Fixed32 => Ok(Fixed(v.n, 4))
    case Fixed64 => Ok(Fixed(v.n, 8))
    case Bytes(max) => if |v.bytes| > max then Error else Prefixed(Ok(v.bytes))
    case Str(max) => Prefixed(Ok(CString(v.bytes, max)))
    case FixedBytes(_) => Prefixed(Ok(v.bytes))
    case Submessage(desc) => Prefixed(EncodeMessage(desc, v.message))
  }

  lemma WiderFits(n: int, width: nat)
    requires IsWidth(width) && FitsSigned(n, width)
    ensures FitsSigned(n, 8)
  {
  }

  /** Elements from `j` on, without tags. */
  function EncodePacked(field: Field, slot: Slot, j: nat): Encoded
    requires SlotHasShape(field, slot) && j <= |slot.values|
    decreases slot, |slot.values| - j
  {
    if j == |slot.values| then Ok([])
    else Cat(EncodeValue(field.kind, slot.values[j]), EncodePacked(field, slot, j + 1))
  }

  /** One value with its tag. */
  function EncodeTagged(field: Field, slot: Slot, j: nat): Encoded
    requires SlotHasShape(field, slot) && j < |slot.values|
    decreases slot, 0
  {
    Cat(Ok(TagBytes(field.tag, WireType(field.kind))), EncodeValue(field.kind, slot.values[j]))
  }

  /** Elements from `j` on, each with its tag. */
  function EncodeUnpacked(field: Field, slot: Slot, j: nat): Encoded
    requires SlotHasShape(field, slot) && j <= |slot.values|
    decreases slot, |slot.values| - j + 1
  {
    if j == |slot.values| then Ok([]) else Cat(EncodeTagged(field, slot, j), EncodeUnpacked(field, slot, j + 1))
  }

  function EncodeArray(field: Field, slot: Slot): Encoded
    requires SlotHasShape(field, slot)
    decreases slot, |slot.values| + 2
  {
    if slot.values == [] then Ok([])
    else if field.rule.Repeated? && |slot.values| > field.rule.max then Error
    else if IsPackable(field.kind) then
      Cat(Ok(TagBytes(field.tag, WIRE_STRING)), Prefixed(EncodePacked(field, slot, 0)))
    else EncodeUnpacked(field, slot, 0)
  }

  /** Field `i` is written: it is present, or it is an array (then there may be no element to write). */
  predicate IsWritten(desc: Desc, m: Message, i: nat)
    requires MessageHasShape(desc, m) && i < |m.slots|
    decreases m, 1
  {
    match desc.fields[i].rule
    case Optional => m.slots[i].has
    case OneOf(_) => m.slots[i].has
    case Singular => !IsDefault(desc, m, i)
    case _ => true
  }

  /** `pb_check_proto3_default_value` */
  predicate IsDefault(desc: Desc, m: Message, i: nat)
    requires MessageHasShape(desc, m) && i < |m.slots|
    decreases m, 0
  {
    var field, slot := desc.fields[i], m.slots[i];
    match field.rule
    case Required => false
    case Repeated(_) => slot.values == []
    case FixedCount(_) => false
    case OneOf(group) => forall k :: 0 <= k < |m.slots| && desc.fields[k].rule == OneOf(group) ==> !m.slots[k].has
    case Optional => !slot.has
    case Singular =>
      assert SlotHasShape(field, slot) && |slot.values| == 1 && HasShape(field.kind, slot.values[0]);
      match field.kind
      case Bytes(_) => slot.values[0].bytes == []
      case Str(_) => CString(slot.values[0].bytes, 1) == []
      case FixedBytes(size) => size == 0
      case Submessage(desc') => ValueSmaller(m, i); AllDefault(desc', slot.values[0].message)
      case _ => slot.values[0].n == 0
  }

  lemma ValueSmaller(m: Message, i: nat)
    requires i < |m.slots| && |m.slots[i].values| > 0 && m.slots[i].values[0].Record?
    ensures m.slots[i].values[0].message < m
  {
    assert m.slots[i] < m;
    assert m.slots[i].values[0] < m.slots[i];
  }

  predicate AllDefault(desc: Desc, m: Message)
    requires MessageHasShape(desc, m)
    decreases m, 1
  {
    forall i :: 0 <= i < |m.slots| ==> IsDefault(desc, m, i)
  }

  function EncodeField(desc: Desc, m: Message, i: nat): Encoded
    requires MessageHasShape(desc, m) && i < |m.slots|
    decreases m, 2
  {
    var field, slot := desc.fields[i], m.slots[i];
    if !IsWritten(desc, m, i) then Ok([])
    else if IsArray(field.rule) then EncodeArray(field, slot)
    else EncodeTagged(field, slot, 0)
  }

  /** Fields from `i` on. */
  function EncodeFrom(desc: Desc, m: Message, i: nat): Encoded
    requires MessageHasShape(desc, m) && i <= |m.slots|
    decreases m, |m.slots| - i + 3
  {
    if i == |m.slots| then Ok([]) else Cat(EncodeField(desc, m, i), EncodeFrom(desc, m, i + 1))
  }

  function EncodeMessage(desc: Desc, m: Message): Encoded
    requires MessageHasShape(desc, m)
    decreases m, |m.slots| + 4
  {
    EncodeFrom(desc, m, 0)
  }
}
