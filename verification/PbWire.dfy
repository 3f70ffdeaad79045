/** The bytes in which a message may come (for pb_decode.c): its units in any order, each a tag and a payload, with
units of unknown tags between them, in submessages too.  What the encoder writes is one of these forms. */
module PbWire {
  import opened Bytes
  import opened Coding
  import opened PbTypes
  import opened PbRestore

  // ----- units -----

  /** A varint of any length: every byte but the last has its top bit set. */
  ghost predicate IsVarint(p: seq<byte>) {
    p != [] && NatOf(p[|p| - 1]) < 128 && forall k :: 0 <= k < |p| - 1 ==> NatOf(p[k]) >= 128
  }

  /** `s` with its size before it. */
  ghost predicate IsSized(p: seq<byte>, s: seq<byte>) {
    |s| < TWO_TO_32 && p == Coding.Varint(|s|) + s
  }

  /** What may follow a tag, by its wire type. */
  ghost predicate IsPayload(wireType: nat, p: seq<byte>) {
    || (wireType == 0 && IsVarint(p))
    || (wireType == 1 && |p| == 8)
    || (wireType == 2 && exists s :: IsSized(p, s))
    || (wireType == 5 && |p| == 4)
  }

  ghost predicate IsUnknown(desc: Desc, tag: nat, wireType: nat, p: seq<byte>) {
    && 0 < tag < 0x2000_0000 && wireType < 8 && IsPayload(wireType, p)
    && forall k :: 0 <= k < |desc.fields| ==> desc.fields[k].tag != tag
  }

  /** The room for elements of an array. */
  function Limit(rule: Rule): nat {
    if rule.Repeated? then rule.max else if rule.FixedCount? then rule.count else 0
  }

  /** How many values of field `k` have to come. */
  ghost function Total(desc: Desc, m: Message, k: nat): nat
    requires MessageHasShape(desc, m) && k < |m.slots|
  {
    if IsWritten(desc, m, k) then |m.slots[k].values| else 0
  }

  /** `done` says how many values of each field have come. */
  ghost predicate Partway(desc: Desc, m: Message, done: seq<nat>) {
    && MessageHasShape(desc, m) && |done| == |m.slots| == |desc.fields|
    && forall k :: 0 <= k < |done| ==> done[k] <= Total(desc, m, k)
  }

  function Zeros(n: nat): seq<nat> {
    seq(n, _ => 0)
  }

  /** Elements `j` to `end`, without tags. */
  function Run(field: Field, slot: Slot, j: nat, end: nat): Encoded
    requires SlotHasShape(field, slot) && j <= end <= |slot.values|
    decreases end - j
  {
    if j == end then Ok([]) else Cat(EncodeValue(field.kind, slot.values[j]), Run(field, slot, j + 1, end))
  }

  /** The next `n` values of a field, from `j` on, are the payload of one unit: numbers of an array packed, or one
      value. */
  ghost predicate IsPart(field: Field, slot: Slot, j: nat, n: nat, wireType: nat, p: seq<byte>)
    requires SlotHasShape(field, slot)
    decreases slot, 0, 0
  {
    && n > 0 && j + n <= |slot.values| && (IsArray(field.rule) ==> j + n <= Limit(field.rule))
    && if IsArray(field.rule) && IsPackable(field.kind) && wireType == 2 then
         Prefixed(Run(field, slot, j, j + n)) == Ok(p)
       else
         && n == 1 && wireType == WireType(field.kind)
         && assert slot.values[j] < slot; EncodesValue(field.kind, slot.values[j], p)
  }

  ghost predicate IsUnit(desc: Desc, m: Message, i: nat, j: nat, n: nat, wireType: nat, p: seq<byte>)
    requires MessageHasShape(desc, m)
    decreases m, 0, 0
  {
    && i < |m.slots| && j + n <= Total(desc, m, i) && SlotHasShape(desc.fields[i], m.slots[i])
    && IsPart(desc.fields[i], m.slots[i], j, n, wireType, p)
  }

  /** What the decoder takes for a value that is no submessage.  True may be any number but 0, and zero bytes of a
      fixed length may be left out. */
  ghost predicate EncodesPlain(kind: Kind, v: Value, p: seq<byte>)
    requires HasShape(kind, v) && !kind.Submessage?
  {
    match kind
    case Bool => exists x: nat :: x < TWO_TO_32 && p == Coding.Varint(x) && v.n == if x == 0 then 0 else 1
    case FixedBytes(size) => IsSized(p, v.bytes) || (IsSized(p, []) && v.bytes == seq(size, _ => 0))
    case _ => EncodeValue(kind, v) == Ok(p)
  }

  ghost predicate EncodesValue(kind: Kind, v: Value, p: seq<byte>)
    requires HasShape(kind, v)
    decreases v, 0, 0
  {
    if kind.Submessage? then exists s :: IsSized(p, s) && EncodesMessage(kind.desc, v.message, s, true)
    else EncodesPlain(kind, v, p)
  }

  /** Arrays of a fixed count do not mix. */
  ghost predicate OneAtATime(desc: Desc, done: seq<nat>, i: nat)
    requires |done| == |desc.fields| && i < |done|
  {
    desc.fields[i].rule.FixedCount? ==>
      forall k :: 0 <= k < |done| && k != i && desc.fields[k].rule.FixedCount? ==>
        done[k] == 0 || done[k] == desc.fields[k].rule.count
  }

  // ----- messages -----

  /** The number of required fields before field `i`, which is `required_field_index`. */
  function RequiredBefore(desc: Desc, i: nat): nat
    requires i <= |desc.fields|
  {
    if i == 0 then 0 else RequiredBefore(desc, i - 1) + if desc.fields[i - 1].rule.Required? then 1 else 0
  }

  /** What the decoder finds missing: one of the first required fields, or the rest of an array of a fixed count. */
  ghost predicate Lacks(desc: Desc, k: nat, done: nat)
    requires k < |desc.fields|
  {
    match desc.fields[k].rule
    case Required => done == 0 && RequiredBefore(desc, k) < 64
    case FixedCount(count) => 0 < done < count
    case _ => false
  }

  ghost predicate EndsHere(desc: Desc, m: Message, done: seq<nat>, complete: bool)
    requires Partway(desc, m, done)
  {
    && (forall k :: 0 <= k < |done| ==> done[k] == Total(desc, m, k) || Lacks(desc, k, done[k]))
    && (complete <==> forall k :: 0 <= k < |done| ==> done[k] == Total(desc, m, k))
  }

  /** `rest` begins with a unit, and `tail` is what follows. */
  ghost predicate Begins(rest: seq<byte>, tag: nat, wireType: nat, p: seq<byte>, tail: seq<byte>) {
    rest == TagBytes(tag, wireType) + (p + tail) && |tail| < |rest|
  }

  /** An unknown unit. */
  ghost predicate UnknownFirst(desc: Desc, rest: seq<byte>, tag: nat, wireType: nat, p: seq<byte>, tail: seq<byte>) {
    Begins(rest, tag, wireType, p, tail) && IsUnknown(desc, tag, wireType, p)
  }

  /** What comes for field `k` takes the place of what has come for field `i`. */
  ghost predicate Supersedes(desc: Desc, k: nat, i: nat) {
    && k < |desc.fields| && i < |desc.fields| && !IsArray(desc.fields[k].rule)
    && !desc.fields[k].kind.Submessage? && !desc.fields[i].kind.Submessage?
    && (k == i || InOneUnion(desc, i, k))
  }

  /** The value of field `k` is still to come, and has to. */
  ghost predicate ToCome(desc: Desc, m: Message, done: seq<nat>, k: nat, complete: bool)
    requires Partway(desc, m, done)
  {
    k < |done| && done[k] == 0 && Total(desc, m, k) > 0 && (desc.fields[k].rule.Required? ==> complete)
  }

  /** A value that is not of the message, and that a later one supersedes. */
  ghost predicate OldFirst(desc: Desc, m: Message, done: seq<nat>, rest: seq<byte>, i: nat, k: nat, v: Value,
                           p: seq<byte>, tail: seq<byte>, complete: bool)
    requires Partway(desc, m, done)
  {
    && Supersedes(desc, k, i) && ToCome(desc, m, done, k, complete)
    && HasShape(desc.fields[i].kind, v) && ValueReadable(desc.fields[i].kind, v)
    && EncodesPlain(desc.fields[i].kind, v, p)
    && Begins(rest, desc.fields[i].tag, WireType(desc.fields[i].kind), p, tail)
  }

  /** A unit of the message. */
  ghost predicate UnitFirst(desc: Desc, m: Message, done: seq<nat>, rest: seq<byte>, i: nat, n: nat, wireType: nat,
                            p: seq<byte>, tail: seq<byte>): (first: bool)
    requires Partway(desc, m, done)
    ensures first ==> i < |done| && Partway(desc, m, done[i := done[i] + n])
    decreases m, 0, 1
  {
    && i < |done| && Begins(rest, desc.fields[i].tag, wireType, p, tail)
    && IsUnit(desc, m, i, done[i], n, wireType, p) && OneAtATime(desc, done, i)
  }

  /** `rest` is what is still to come of `m`: it ends with the input or with a zero byte, or it begins with a unit that
      is unknown, or superseded, or one of `m`.  A message that is not `complete` lacks something that the decoder
      insists on. */
  ghost predicate Encodes(desc: Desc, m: Message, done: seq<nat>, rest: seq<byte>, complete: bool)
    requires Partway(desc, m, done)
    decreases m, |rest|, 2
  {
    || ((rest == [] || NatOf(rest[0]) == 0) && EndsHere(desc, m, done, complete))
    || (exists tag: nat, wireType: nat, p, tail ::
          UnknownFirst(desc, rest, tag, wireType, p, tail) && Encodes(desc, m, done, tail, complete))
    || (exists i: nat, k: nat, v, p, tail ::
          OldFirst(desc, m, done, rest, i, k, v, p, tail, complete) && Encodes(desc, m, done, tail, complete))
    || (exists i: nat, n: nat, wireType: nat, p, tail ::
          && UnitFirst(desc, m, done, rest, i, n, wireType, p, tail)
          && Encodes(desc, m, done[i := done[i] + n], tail, complete))
  }

  ghost predicate EncodesMessage(desc: Desc, m: Message, bytes: seq<byte>, complete: bool)
    requires MessageHasShape(desc, m)
    decreases m, |bytes|, 3
  {
    Encodes(desc, m, Zeros(|m.slots|), bytes, complete)
  }

  /** A unit of an unknown tag may come at any place between the units of a message. */
  lemma UnknownMayCome(desc: Desc, m: Message, done: seq<nat>, tail: seq<byte>, complete: bool, tag: nat, wireType: nat,
                       p: seq<byte>)
    requires Partway(desc, m, done) && Encodes(desc, m, done, tail, complete) && IsUnknown(desc, tag, wireType, p)
    ensures Encodes(desc, m, done, TagBytes(tag, wireType) + p + tail, complete)
  {
    hide IsUnknown, TagBytes, IsUnit, OneAtATime;
    var rest := TagBytes(tag, wireType) + p + tail;
    assert rest == TagBytes(tag, wireType) + (p + tail);
    TagIsThere(tag, wireType);
    assert UnknownFirst(desc, rest, tag, wireType, p, tail);
  }

  lemma TagIsThere(tag: nat, wireType: nat)
    ensures TagBytes(tag, wireType) != []
  {
  }
}
