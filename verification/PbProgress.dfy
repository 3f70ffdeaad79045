/** How far decoding has come (for the proof of pb_decode.c): how many values of each field have been taken, and what
the decoder has to show for them. */
module PbProgress {
  import opened Bytes
  import opened Coding
  import opened PbTypes
  import opened PbRestore
  import opened PbWire

  // ----- what has been restored -----

  /** The first `j` elements of an array. */
  ghost predicate PartSame(field: Field, a: Slot, b: Slot, j: nat) {
    && j <= |a.values| && j <= |b.values|
    && (field.rule.Repeated? ==> |b.values| == j)
    && (field.rule.FixedCount? ==> |b.values| == field.rule.count)
    && forall e :: 0 <= e < j ==> DecodedValue(field.kind, a.values[e], b.values[e])
  }

  /** The slot when `j` values of the field have been taken, and what it was before. */
  ghost predicate PartAfter(field: Field, b0: Slot, a: Slot, j: nat, b: Slot)
    requires SlotHasShape(field, a)
  {
    if IsArray(field.rule) then PartSame(field, a, b, j) else MergedSlot(field, b0, a, b)
  }

  /** A number, bytes or a string of the union is still to come. */
  ghost predicate UnionToCome(desc: Desc, m: Message, done: seq<nat>, i: nat, complete: bool)
    requires Partway(desc, m, done) && i < |done|
  {
    exists k: nat :: k < |done| && InOneUnion(desc, i, k) && !desc.fields[k].kind.Submessage?
                     && ToCome(desc, m, done, k, complete)
  }

  ghost predicate UnionHasCome(desc: Desc, done: seq<nat>, i: nat)
    requires i < |done| == |desc.fields|
  {
    exists k: nat :: k < |done| && InOneUnion(desc, i, k) && done[k] > 0
  }

  /** The slot of field `i`: what has been taken, or what was there before, or a value that will be superseded. */
  ghost predicate SlotSoFar(desc: Desc, m: Message, r0: Message, done: seq<nat>, i: nat, b: Slot, complete: bool)
    requires Partway(desc, m, done) && i < |done| == |r0.slots|
  {
    var field, b0 := desc.fields[i], r0.slots[i];
    && SlotHasShape(field, m.slots[i])
    && if done[i] > 0 then PartAfter(field, b0, m.slots[i], done[i], b)
       else if field.rule.OneOf? then
         UnionToCome(desc, m, done, i, complete) || (if UnionHasCome(desc, done, i) then !b.has else b == b0)
       else b == b0 || (Supersedes(desc, i, i) && ToCome(desc, m, done, i, complete))
  }

  ghost predicate Restored(desc: Desc, m: Message, r0: Message, done: seq<nat>, r: Message, complete: bool)
    requires Partway(desc, m, done)
  {
    && |r.slots| == |m.slots| == |r0.slots|
    && forall k :: 0 <= k < |done| ==> SlotSoFar(desc, m, r0, done, k, r.slots[k], complete)
  }

  /** A value that can be read. */
  ghost predicate ElementReadable(desc: Desc, m: Message, i: nat, e: nat)
    requires MessageHasShape(desc, m)
  {
    && i < |m.slots| && e < |m.slots[i].values| && SlotHasShape(desc.fields[i], m.slots[i])
    && ValueReadable(desc.fields[i].kind, m.slots[i].values[e])
  }

  /** What has been taken could be read. */
  ghost predicate ReadSoFar(desc: Desc, m: Message, done: seq<nat>)
    requires MessageHasShape(desc, m)
  {
    forall k: nat, e: nat :: k < |done| && e < done[k] ==> ElementReadable(desc, m, k, e)
  }

  /** A unit is read wholly or not at all, and what cannot be read makes the message unreadable. */
  lemma UnitReadable(desc: Desc, m: Message, i: nat, j: nat, n: nat, wireType: nat, p: seq<byte>)
    requires MessageHasShape(desc, m) && IsUnit(desc, m, i, j, n, wireType, p)
    ensures MessageReadable(desc, m) ==> ElementReadable(desc, m, i, j)
    ensures SlotHasShape(desc.fields[i], m.slots[i])
    ensures j < |m.slots[i].values|
    ensures ElementReadable(desc, m, i, j) <==> ValueReadable(desc.fields[i].kind, m.slots[i].values[j])
    ensures IsPackable(desc.fields[i].kind) ==> ElementReadable(desc, m, i, j)
    ensures ElementReadable(desc, m, i, j) ==> forall e: nat :: j <= e < j + n ==> ElementReadable(desc, m, i, e)
  {
    hide IsWritten, EncodesValue, Run, Prefixed;
    var field, slot := desc.fields[i], m.slots[i];
    if MessageReadable(desc, m) {
      assert SlotReadable(field, slot);
    }
    forall e: nat | j <= e < j + n && IsPackable(field.kind) ensures ElementReadable(desc, m, i, e) {
    }
  }

  // ----- what has been seen -----

  const MAX_REQUIRED_FIELDS := 64

  /** The bits of `fields_seen`. */
  ghost predicate SeenIs(desc: Desc, done: seq<nat>, seen: set<nat>, complete: bool) {
    && |done| == |desc.fields|
    && (forall n :: n in seen ==> n < RequiredBefore(desc, |desc.fields|) && n < MAX_REQUIRED_FIELDS)
    && forall k :: 0 <= k < |done| && desc.fields[k].rule.Required? && RequiredBefore(desc, k) < MAX_REQUIRED_FIELDS ==>
         && (done[k] > 0 ==> RequiredBefore(desc, k) in seen)
         && (RequiredBefore(desc, k) in seen && !complete ==> done[k] > 0)
  }

  lemma {:induction false} RequiredGrows(desc: Desc, i: nat, k: nat)
    requires i <= k <= |desc.fields|
    ensures RequiredBefore(desc, i) <= RequiredBefore(desc, k)
    ensures i < k && desc.fields[i].rule.Required? ==> RequiredBefore(desc, i) < RequiredBefore(desc, k)
    decreases k - i
  {
    if i < k {
      RequiredGrows(desc, i, k - 1);
    }
  }

  /** Every index below the number of required fields is that of one of them. */
  lemma {:induction false} RequiredIndex(desc: Desc, n: nat, end: nat) returns (k: nat)
    requires end <= |desc.fields| && n < RequiredBefore(desc, end)
    ensures k < end && desc.fields[k].rule.Required? && RequiredBefore(desc, k) == n
  {
    if RequiredBefore(desc, end - 1) <= n {
      k := end - 1;
    } else {
      k := RequiredIndex(desc, n, end - 1);
    }
  }

  function SeenAfter(desc: Desc, i: nat, seen: set<nat>): set<nat>
    requires i < |desc.fields|
  {
    seen + if desc.fields[i].rule.Required? && RequiredBefore(desc, i) < MAX_REQUIRED_FIELDS
        then {RequiredBefore(desc, i)} else {}
  }

  lemma SeenGoesOn(desc: Desc, done: seq<nat>, seen: set<nat>, i: nat, done': seq<nat>, complete: bool)
    requires SeenIs(desc, done, seen, complete) && i < |done| == |done'|
    requires forall k :: 0 <= k < |done| && k != i ==> done[k] == done'[k]
    requires done'[i] == 0 ==> done[i] == 0 && (desc.fields[i].rule.Required? ==> complete)
    ensures SeenIs(desc, done', SeenAfter(desc, i, seen), complete)
  {
    RequiredGrows(desc, i, |desc.fields|);
    forall k | 0 <= k < |done| && k != i && desc.fields[k].rule.Required? && desc.fields[i].rule.Required?
      ensures RequiredBefore(desc, k) != RequiredBefore(desc, i)
    {
      if k < i {
        RequiredGrows(desc, k, i);
      } else {
        RequiredGrows(desc, i, k);
      }
    }
  }

  // ----- arrays of a fixed count -----

  /** The fixed-count array that is being received, or was last, and how much of it. */
  datatype Tracking = NoField | Tracking(field: nat, size: nat)

  ghost predicate Tracks(desc: Desc, done: seq<nat>, t: Tracking) {
    && |done| == |desc.fields|
    && (t.Tracking? ==>
          && t.field < |done| && desc.fields[t.field].rule.FixedCount? && t.size == done[t.field] && t.size > 0)
    && forall k :: 0 <= k < |done| && desc.fields[k].rule.FixedCount? && done[k] > 0 ==>
         done[k] == desc.fields[k].rule.count || (t.Tracking? && t.field == k)
  }

  /** Before the next unit, the fixed-count array of another field must be complete; a new one starts at 0. */
  function TrackField(desc: Desc, i: nat, t: Tracking): Tracking
    requires i < |desc.fields|
  {
    if desc.fields[i].rule.FixedCount? && !(t.Tracking? && t.field == i) then Tracking(i, 0) else t
  }

  /** The size check of fixed-count arrays passes. */
  predicate Complete(desc: Desc, t: Tracking) {
    t.Tracking? && t.field < |desc.fields| && desc.fields[t.field].rule.FixedCount? ==>
      t.size == desc.fields[t.field].rule.count
  }

  /** The count of a fixed-count array after a unit of field `i`. */
  function Received(desc: Desc, i: nat, t: Tracking, size: nat): Tracking
    requires i < |desc.fields|
  {
    if desc.fields[i].rule.FixedCount? then Tracking(i, size) else t
  }

  lemma TrackingGoesOn(desc: Desc, done: seq<nat>, t: Tracking, i: nat, n: nat)
    requires Tracks(desc, done, t) && i < |done| && n > 0 && OneAtATime(desc, done, i)
    requires desc.fields[i].rule.FixedCount? ==> done[i] + n <= desc.fields[i].rule.count
    ensures var t' := TrackField(desc, i, t);
            && (desc.fields[i].rule.FixedCount? ==> t' == Tracking(i, done[i]))
            && (t' != t ==> Complete(desc, t))
            && Tracks(desc, done[i := done[i] + n], Received(desc, i, t', done[i] + n))
  {
  }

  // ----- steps -----

  /** Decoding stands before `rest`. */
  ghost predicate At(desc: Desc, m: Message, r0: Message, done: seq<nat>, rest: seq<byte>, r: Message, seen: set<nat>,
                     t: Tracking, complete: bool)
  {
    && DescOk(desc) && MessageOk(desc, m) && Partway(desc, m, done) && |rest| < TWO_TO_32 && Ready(desc, r0, m)
    && Encodes(desc, m, done, rest, complete)
    && Restored(desc, m, r0, done, r, complete) && ReadSoFar(desc, m, done) && SeenIs(desc, done, seen, complete)
    && Tracks(desc, done, t)
  }

  lemma BeginsAt(desc: Desc, m: Message, r0: Message, input: seq<byte>, complete: bool)
    requires DescOk(desc) && MessageHasShape(desc, m) && MessageOk(desc, m) && Ready(desc, r0, m)
    requires EncodesMessage(desc, m, input, complete) && |input| < TWO_TO_32
    ensures At(desc, m, r0, Zeros(|m.slots|), input, r0, {}, NoField, complete)
  {
  }

  /** What the decoder finds next: an end, a unit that it does not know, a value that a later one supersedes, or a unit
      of the message. */
  datatype Next =
    | End
    | Skip(tag: nat, wireType: nat)
    | Old(i: nat, k: nat, v: Value)
    | Take(i: nat, n: nat, wireType: nat)

  lemma WhatIsNext(desc: Desc, m: Message, done: seq<nat>, rest: seq<byte>, complete: bool)
    returns (next: Next, p: seq<byte>, tail: seq<byte>)
    requires Partway(desc, m, done) && Encodes(desc, m, done, rest, complete)
    ensures next.End? ==> (rest == [] || NatOf(rest[0]) == 0) && EndsHere(desc, m, done, complete)
    ensures next.Skip? ==>
              UnknownFirst(desc, rest, next.tag, next.wireType, p, tail) && Encodes(desc, m, done, tail, complete)
    ensures next.Old? ==>
              && OldFirst(desc, m, done, rest, next.i, next.k, next.v, p, tail, complete)
              && Encodes(desc, m, done, tail, complete)
    ensures next.Take? ==>
              && UnitFirst(desc, m, done, rest, next.i, next.n, next.wireType, p, tail)
              && Encodes(desc, m, done[next.i := done[next.i] + next.n], tail, complete)
  {
    hide IsUnit, IsUnknown, Begins, OneAtATime, EndsHere, HasShape, IsWritten, OldFirst, UnknownFirst;
    if (rest == [] || NatOf(rest[0]) == 0) && EndsHere(desc, m, done, complete) {
      next, p, tail := End, [], [];
    } else if tag: nat, wireType: nat, p', tail' :|
        UnknownFirst(desc, rest, tag, wireType, p', tail') && Encodes(desc, m, done, tail', complete) {
      next, p, tail := Skip(tag, wireType), p', tail';
    } else if i: nat, k: nat, v, p', tail' :|
        OldFirst(desc, m, done, rest, i, k, v, p', tail', complete) && Encodes(desc, m, done, tail', complete) {
      next, p, tail := Old(i, k, v), p', tail';
    } else {
      var i: nat, n: nat, wireType: nat, p', tail' :|
        && UnitFirst(desc, m, done, rest, i, n, wireType, p', tail')
        && Encodes(desc, m, done[i := done[i] + n], tail', complete);
      next, p, tail := Take(i, n, wireType), p', tail';
    }
  }

  /** The fields of a union share their storage: `which` no longer names any of them. */
  function Cleared(desc: Desc, slots: seq<Slot>, group: nat): seq<Slot>
    requires |slots| == |desc.fields|
  {
    seq(|slots|, k requires 0 <= k < |slots| => if desc.fields[k].rule == OneOf(group) then slots[k].(has := false)
        else slots[k])
  }

  /** The slots after a unit of field `i`, which leaves `slot`. */
  function SlotsAfter(desc: Desc, slots: seq<Slot>, i: nat, slot: Slot): seq<Slot>
    requires |slots| == |desc.fields| && i < |slots|
  {
    (if desc.fields[i].rule.OneOf? then Cleared(desc, slots, desc.fields[i].rule.group) else slots)[i := slot]
  }

  /** The count of a fixed-count array before a unit of the message. */
  lemma TrackedHere(desc: Desc, m: Message, done: seq<nat>, rest: seq<byte>, t: Tracking, i: nat, n: nat, wireType: nat,
                    p: seq<byte>, tail: seq<byte>)
    requires Partway(desc, m, done) && Tracks(desc, done, t)
    requires UnitFirst(desc, m, done, rest, i, n, wireType, p, tail)
    ensures var t' := TrackField(desc, i, t);
            && (desc.fields[i].rule.FixedCount? ==> t' == Tracking(i, done[i]))
            && (t' != t ==> Complete(desc, t))
  {
    hide Tracks, OneAtATime, TrackField, IsWritten, EncodesValue, Run;
    UnitIsThere(desc, m, i, done[i], n, wireType, p);
    TrackingGoesOn(desc, done, t, i, n);
  }

  /** A unit of the message has been taken. */
  lemma UnitTaken(desc: Desc, m: Message, r0: Message, done: seq<nat>, rest: seq<byte>, r: Message, seen: set<nat>,
                  t: Tracking, complete: bool, i: nat, n: nat, wireType: nat, p: seq<byte>, tail: seq<byte>, slot: Slot,
                  size: nat)
    requires At(desc, m, r0, done, rest, r, seen, t, complete)
    requires UnitFirst(desc, m, done, rest, i, n, wireType, p, tail)
    requires desc.fields[i].rule.FixedCount? ==> size == done[i] + n
    requires Encodes(desc, m, done[i := done[i] + n], tail, complete)
    requires PartAfter(desc.fields[i], r0.slots[i], m.slots[i], done[i] + n, slot)
    requires ElementReadable(desc, m, i, done[i])
    ensures |r.slots| == |desc.fields|
    ensures var t' := Received(desc, i, TrackField(desc, i, t), size);
            At(desc, m, r0, done[i := done[i] + n], tail, Message(SlotsAfter(desc, r.slots, i, slot)),
               SeenAfter(desc, i, seen), t', complete)
  {
    hide DescOk, MessageOk, PartAfter, IsWritten, ElementReadable, EncodesValue, Run, Encodes, SeenIs, Tracks,
         OneAtATime, TrackField, SeenAfter, Restored, SlotsAfter, ReadSoFar;
    UnitIsThere(desc, m, i, done[i], n, wireType, p);
    SeenGoesOn(desc, done, seen, i, done[i := done[i] + n], complete);
    TrackingGoesOn(desc, done, t, i, n);
    RestoredAfter(desc, m, r0, done, r, complete, i, n, slot);
    ReadMore(desc, m, done, i, n, wireType, p);
  }

  lemma ReadMore(desc: Desc, m: Message, done: seq<nat>, i: nat, n: nat, wireType: nat, p: seq<byte>)
    requires Partway(desc, m, done) && ReadSoFar(desc, m, done) && i < |done|
    requires IsUnit(desc, m, i, done[i], n, wireType, p) && ElementReadable(desc, m, i, done[i])
    ensures ReadSoFar(desc, m, done[i := done[i] + n])
  {
    hide ElementReadable, IsUnit, IsWritten;
    UnitReadable(desc, m, i, done[i], n, wireType, p);
  }

  lemma RestoredAfter(desc: Desc, m: Message, r0: Message, done: seq<nat>, r: Message, complete: bool, i: nat, n: nat,
                      slot: Slot)
    requires Partway(desc, m, done) && MessageOk(desc, m) && Restored(desc, m, r0, done, r, complete)
    requires i < |done| && n > 0 && Partway(desc, m, done[i := done[i] + n])
    requires PartAfter(desc.fields[i], r0.slots[i], m.slots[i], done[i] + n, slot)
    ensures |r.slots| == |desc.fields|
    ensures Restored(desc, m, r0, done[i := done[i] + n], Message(SlotsAfter(desc, r.slots, i, slot)), complete)
  {
    hide PartAfter, ValueOk, HasShape, DefaultSlot;
    var done', slots := done[i := done[i] + n], SlotsAfter(desc, r.slots, i, slot);
    forall k | 0 <= k < |done| ensures SlotSoFar(desc, m, r0, done', k, slots[k], complete) {
      assert SlotSoFar(desc, m, r0, done, k, r.slots[k], complete);
      if k != i && InOneUnion(desc, k, i) {
        assert slots[k] == r.slots[k].(has := false);
        assert Total(desc, m, i) > 0 && m.slots[i].has;
        assert !m.slots[k].has && Total(desc, m, k) == 0;
      } else if k != i {
        assert slots[k] == r.slots[k];
        StillToCome(desc, m, done, done', i, k, complete);
      }
    }
  }

  /** What was to come for a field outside of the union of `i` still is. */
  lemma StillToCome(desc: Desc, m: Message, done: seq<nat>, done': seq<nat>, i: nat, k: nat, complete: bool)
    requires Partway(desc, m, done) && Partway(desc, m, done') && k < |done|
    requires forall x :: 0 <= x < |done| && x != i ==> done[x] == done'[x]
    requires k != i && i < |done| && !InOneUnion(desc, k, i)
    ensures forall x :: Supersedes(desc, x, k) && ToCome(desc, m, done, x, complete) ==>
              ToCome(desc, m, done', x, complete)
  {
    hide IsWritten, HasShape;
  }

  lemma UnitIsThere(desc: Desc, m: Message, i: nat, j: nat, n: nat, wireType: nat, p: seq<byte>)
    requires MessageHasShape(desc, m) && IsUnit(desc, m, i, j, n, wireType, p)
    ensures n > 0 && i < |m.slots| == |desc.fields|
    ensures desc.fields[i].rule.FixedCount? ==> j + n <= desc.fields[i].rule.count
  {
  }

  /** A value has been read that a later one supersedes. */
  lemma OldTaken(desc: Desc, m: Message, r0: Message, done: seq<nat>, rest: seq<byte>, r: Message, seen: set<nat>,
                 t: Tracking, complete: bool, i: nat, k: nat, v: Value, p: seq<byte>, tail: seq<byte>, slot: Slot,
                 size: nat)
    requires At(desc, m, r0, done, rest, r, seen, t, complete)
    requires OldFirst(desc, m, done, rest, i, k, v, p, tail, complete) && Encodes(desc, m, done, tail, complete)
    ensures |r.slots| == |desc.fields| && i < |r.slots|
    ensures At(desc, m, r0, done, tail, Message(SlotsAfter(desc, r.slots, i, slot)), SeenAfter(desc, i, seen),
               Received(desc, i, TrackField(desc, i, t), size), complete)
    ensures TrackField(desc, i, t) == t
  {
    hide DescOk, MessageOk, IsWritten, Encodes, SeenIs, Tracks, SeenAfter, Restored, SlotsAfter, ReadSoFar, HasShape;
    OldIsAlone(desc, m, done, i, k, complete);
    SeenGoesOn(desc, done, seen, i, done, complete);
    RestoredOld(desc, m, r0, done, r, complete, i, k, slot);
  }

  lemma OldIsAlone(desc: Desc, m: Message, done: seq<nat>, i: nat, k: nat, complete: bool)
    requires Partway(desc, m, done) && MessageOk(desc, m)
    requires Supersedes(desc, k, i) && ToCome(desc, m, done, k, complete)
    ensures i < |done| && done[i] == 0 && !IsArray(desc.fields[i].rule)
    ensures desc.fields[i].rule.Required? ==> complete
  {
    hide HasShape, ValueOk;
  }

  lemma RestoredOld(desc: Desc, m: Message, r0: Message, done: seq<nat>, r: Message, complete: bool, i: nat, k: nat,
                    slot: Slot)
    requires Partway(desc, m, done) && MessageOk(desc, m) && Restored(desc, m, r0, done, r, complete)
    requires Supersedes(desc, k, i) && ToCome(desc, m, done, k, complete) && i < |done| && done[i] == 0
    ensures |r.slots| == |desc.fields|
    ensures Restored(desc, m, r0, done, Message(SlotsAfter(desc, r.slots, i, slot)), complete)
  {
    hide PartAfter, ValueOk, HasShape, DefaultSlot;
    var slots := SlotsAfter(desc, r.slots, i, slot);
    forall x | 0 <= x < |done| ensures SlotSoFar(desc, m, r0, done, x, slots[x], complete) {
      assert SlotSoFar(desc, m, r0, done, x, r.slots[x], complete);
      if x != i && InOneUnion(desc, x, i) {
        assert slots[x] == r.slots[x].(has := false);
        assert m.slots[k].has && InOneUnion(desc, x, k);
        assert done[x] == 0;
      }
    }
  }

  // ----- the end -----

  /** At the end of a complete message everything is restored. */
  lemma EndsComplete(desc: Desc, m: Message, r0: Message, done: seq<nat>, rest: seq<byte>, r: Message, seen: set<nat>,
                     t: Tracking)
    requires At(desc, m, r0, done, rest, r, seen, t, true) && EndsHere(desc, m, done, true)
    ensures MergedMessage(desc, r0, m, r) && MessageReadable(desc, m) && Complete(desc, t)
    ensures forall n: nat :: n in seen <==> n < RequiredBefore(desc, |desc.fields|) && n < MAX_REQUIRED_FIELDS
  {
    hide Encodes, MessageOk, Total;
    forall k | 0 <= k < |done| ensures MergedField(desc, r0, m, k, r.slots[k]) {
      FieldIsMerged(desc, m, r0, done, r, k);
    }
    EverythingRead(desc, m, done);
    EverythingSeen(desc, m, done, seen);
    if t.Tracking? {
      CountIs(desc, m, done, t.field);
    }
  }

  lemma CountIs(desc: Desc, m: Message, done: seq<nat>, k: nat)
    requires Partway(desc, m, done) && k < |done| && done[k] == Total(desc, m, k) && desc.fields[k].rule.FixedCount?
    ensures done[k] == desc.fields[k].rule.count
  {
    assert SlotHasShape(desc.fields[k], m.slots[k]);
  }

  lemma FieldIsMerged(desc: Desc, m: Message, r0: Message, done: seq<nat>, r: Message, i: nat)
    requires Partway(desc, m, done) && Restored(desc, m, r0, done, r, true) && i < |done|
    requires forall k :: 0 <= k < |done| ==> done[k] == Total(desc, m, k)
    ensures MergedField(desc, r0, m, i, r.slots[i])
  {
    hide DecodedValue, ValueReadable, HasShape, IsWritten;
    var field, a, b := desc.fields[i], m.slots[i], r.slots[i];
    assert SlotSoFar(desc, m, r0, done, i, b, true);
    forall k: nat | k < |done| ensures done[k] > 0 <==> Comes(desc, m, k) {
    }
    if done[i] > 0 && IsArray(field.rule) {
      assert MergedSlot(field, r0.slots[i], a, b);
    }
  }

  lemma EverythingRead(desc: Desc, m: Message, done: seq<nat>)
    requires Partway(desc, m, done) && ReadSoFar(desc, m, done)
    requires forall k :: 0 <= k < |done| ==> done[k] == Total(desc, m, k)
    ensures MessageReadable(desc, m)
  {
    hide IsWritten, ValueReadable, HasShape;
    forall k | 0 <= k < |m.slots| && IsWritten(desc, m, k) ensures SlotReadable(desc.fields[k], m.slots[k]) {
      assert SlotHasShape(desc.fields[k], m.slots[k]);
      forall e: nat | e < |m.slots[k].values| ensures ValueReadable(desc.fields[k].kind, m.slots[k].values[e]) {
        assert e < done[k];
        assert ElementReadable(desc, m, k, e);
      }
    }
  }

  lemma EverythingSeen(desc: Desc, m: Message, done: seq<nat>, seen: set<nat>)
    requires Partway(desc, m, done) && SeenIs(desc, done, seen, true)
    requires forall k :: 0 <= k < |done| ==> done[k] == Total(desc, m, k)
    ensures forall n: nat :: n in seen <==> n < RequiredBefore(desc, |desc.fields|) && n < MAX_REQUIRED_FIELDS
  {
    hide HasShape;
    forall n: nat | n < RequiredBefore(desc, |desc.fields|) && n < MAX_REQUIRED_FIELDS ensures n in seen {
      var k := RequiredIndex(desc, n, |desc.fields|);
      assert SlotHasShape(desc.fields[k], m.slots[k]) && IsWritten(desc, m, k);
    }
  }

  /** At the end of another the decoder finds what it lacks. */
  lemma EndsIncomplete(desc: Desc, m: Message, r0: Message, done: seq<nat>, rest: seq<byte>, r: Message, seen: set<nat>,
                       t: Tracking)
    requires At(desc, m, r0, done, rest, r, seen, t, false) && EndsHere(desc, m, done, false)
    ensures !Complete(desc, t)
            || exists n: nat :: n !in seen && n < RequiredBefore(desc, |desc.fields|) && n < MAX_REQUIRED_FIELDS
  {
    hide Encodes, MessageOk, Restored, ReadSoFar, MessageHasShape, DescOk, Total;
    var k :| 0 <= k < |done| && done[k] != Total(desc, m, k);
    assert Lacks(desc, k, done[k]);
    if desc.fields[k].rule.Required? {
      RequiredGrows(desc, k, |desc.fields|);
      assert RequiredBefore(desc, k) !in seen;
    }
  }
}
