/** table/block_builder.cc */
module BlockBuilders {
  import opened Bytes
  import opened Coding
  import opened BlockFormat

  /** Restart points are `interval` entries apart, and `counter` entries follow the last. */
  ghost predicate Spaced(marks: seq<nat>, count: nat, interval: nat, counter: nat) {
    && (forall j :: 0 < j < |marks| ==> marks[j] == marks[j - 1] + interval)
    && marks != [] && count == marks[|marks| - 1] + counter
  }

  /** The longest common prefix, except at a restart point. */
  ghost predicate IsShared(last: seq<byte>, key: seq<byte>, shared: nat, restarting: bool) {
    if restarting then shared == 0 else
      && shared <= |key| && shared <= |last| && last[..shared] == key[..shared]
      && (shared < |key| && shared < |last| ==> last[shared] != key[shared])
  }

  class BlockBuilder {
    const restartInterval: nat
    var buffer: seq<byte>
    var restarts: seq<nat>
    var counter: nat
    var finished: bool
    var lastKey: seq<byte>
    ghost var layout: Layout

    ghost predicate Valid()
      reads this
    {
      && restartInterval >= 1 && IsLayout(layout, buffer) && Restarts(layout, restarts)
      && lastKey == (if layout.entries == [] then [] else layout.entries[|layout.entries| - 1].key)
      && counter <= restartInterval && Spaced(layout.marks, |layout.entries|, restartInterval, counter)
      && (layout.entries == [] ==> counter == 0 && |restarts| == 1)
      && (forall j :: 0 < j < |layout.marks| ==> layout.marks[j] < |layout.entries|)
    }

    ghost function Entries(): seq<Entry>
      reads this
    {
      layout.entries
    }

    constructor (restartInterval: nat)
      requires restartInterval >= 1
      ensures Valid() && Entries() == [] && !finished && buffer == []
    {
      this.restartInterval := restartInterval;
      buffer, restarts, counter, finished, lastKey := [], [0], 0, false, [];
      layout := Layout([], [0], [], [0]);
    }

    method Reset()
      requires restartInterval >= 1
      modifies this
      ensures Valid() && Entries() == [] && !finished && buffer == []
    {
      buffer, restarts, counter, finished, lastKey := [], [0], 0, false, [];
      layout := Layout([], [0], [], [0]);
    }

    /** The size of the block that `Finish` would return. */
    function CurrentSizeEstimate(): nat
      reads this
    {
      |buffer| + |restarts| * 4 + 4
    }

    method Finish() returns (block: seq<byte>)
      requires Valid() && !finished
      modifies this
      ensures finished && block == BlockBytes(old(buffer), old(restarts)) && |block| == old(CurrentSizeEstimate())
      ensures IsLayout(old(layout), old(buffer)) && Restarts(old(layout), restarts) && old(layout) == layout
      ensures restarts == old(restarts)
    {
      hide Fixed, IsLayout, Restarts;
      ghost var data := buffer;
      assert restarts[..0] == [];
      for i := 0 to |restarts|
        modifies this`buffer
        invariant buffer == data + RestartArray(restarts[..i]) && |RestartArray(restarts[..i])| == 4 * i
      {
        buffer := buffer + Fixed(restarts[i], 4);
        assert restarts[..i + 1][..i] == restarts[..i];
      }
      assert restarts[..|restarts|] == restarts;
      buffer := buffer + Fixed(|restarts|, 4);
      finished := true;
      return buffer;
    }

    /** How much sharing to do with the key before. */
    method SharedWithLast(key: seq<byte>) returns (shared: nat)
      ensures shared <= |key| && shared <= |lastKey| && lastKey[..shared] == key[..shared]
      ensures IsShared(lastKey, key, shared, false)
    {
      shared := 0;
      var minLength := if |lastKey| < |key| then |lastKey| else |key|;
      while shared < minLength && lastKey[shared] == key[shared]
        invariant shared <= minLength && lastKey[..shared] == key[..shared]
      {
        shared := shared + 1;
      }
    }

    /** The lengths, the rest of the key, and the value. */
    method AppendEntry(shared: nat, key: seq<byte>, value: seq<byte>)
      requires shared <= |key| < TWO_TO_32 && |value| < TWO_TO_32
      modifies this`buffer
      ensures buffer == old(buffer) + EntryBytes(shared, Entry(key, value))
    {
      hide Varint;
      var bytes := EncodeVarint32(shared);
      buffer := buffer + bytes;
      bytes := EncodeVarint32(|key| - shared);
      buffer := buffer + bytes;
      bytes := EncodeVarint32(|value|);
      buffer := buffer + bytes;
      buffer := buffer + key[shared..];
      buffer := buffer + value;
    }

    method Add(key: seq<byte>, value: seq<byte>)
      requires Valid() && !finished && |key| < TWO_TO_32 && |value| < TWO_TO_32
      modifies this
      ensures Valid() && !finished && Entries() == old(Entries()) + [Entry(key, value)]
      ensures var restarting := old(counter) >= restartInterval;
              && restarts == old(restarts) + (if restarting then [|old(buffer)|] else [])
              && exists shared: nat :: shared <= |key| && IsShared(old(lastKey), key, shared, restarting)
                                       && buffer == old(buffer) + EntryBytes(shared, Entry(key, value))
    {
      hide EntryBytes, IsLayout, Restarts, Increasing, IsShared;
      ghost var l, e, restarting := layout, Entry(key, value), counter >= restartInterval;
      var shared: nat := 0;
      if counter < restartInterval {
        shared := SharedWithLast(key);
      } else {
        restarts := restarts + [|buffer|];
        counter := 0;
      }
      NothingShared(lastKey, key);
      FirstMark(l, buffer, old(restarts));
      LayoutGrows(l, buffer, e, shared, restarting);
      RestartsGrow(l, buffer, old(restarts), buffer + EntryBytes(shared, e), e, shared, restarting);
      AppendEntry(shared, key, value);
      layout := Grown(l, |buffer|, e, shared, restarting);
      KeyIs(lastKey, key, shared);
      lastKey := lastKey[..shared] + key[shared..];
      counter := counter + 1;
    }
  }

  lemma NothingShared(last: seq<byte>, key: seq<byte>)
    ensures IsShared(last, key, 0, true)
  {
  }

  lemma KeyIs(lastKey: seq<byte>, key: seq<byte>, shared: nat)
    requires shared <= |lastKey| && shared <= |key| && lastKey[..shared] == key[..shared]
    ensures lastKey[..shared] + key[shared..] == key
  {
  }

  lemma FirstMark(l: Layout, buffer: seq<byte>, restarts: seq<nat>)
    requires IsLayout(l, buffer) && Restarts(l, restarts)
    ensures |l.marks| == |restarts| > 0 && l.marks[0] == 0
  {
    assert MarkAt(l, 0);
  }

  ghost function Grown(l: Layout, size: nat, e: Entry, shared: nat, restarting: bool): Layout {
    Layout(l.entries + [e], l.offsets + [size], l.shared + [shared], if restarting then l.marks + [|l.entries|]
           else l.marks)
  }

  lemma LayoutGrows(l: Layout, buffer: seq<byte>, e: Entry, shared: nat, restarting: bool)
    requires IsLayout(l, buffer) && |e.key| < TWO_TO_32 && |e.value| < TWO_TO_32 && shared <= |e.key|
    requires if l.entries == [] then shared == 0 && !restarting && l.marks == [0] else
               shared <= |l.entries[|l.entries| - 1].key| && e.key[..shared] == l.entries[|l.entries| - 1].key[..shared]
    requires restarting ==> shared == 0
    requires forall j :: 0 < j < |l.marks| ==> l.marks[j] < |l.entries|
    ensures var buffer' := buffer + EntryBytes(shared, e);
            IsLayout(Grown(l, |buffer'|, e, shared, restarting), buffer')
  {
    hide EntryBytes;
    var buffer' := buffer + EntryBytes(shared, e);
    var l' := Grown(l, |buffer'|, e, shared, restarting);
    var n := |l.entries|;
    EntryBytesLength(shared, e);
    forall i | 0 <= i <= n ensures EntryAt(l', buffer', i) {
      if i < n {
        assert EntryAt(l, buffer, i);
        assert buffer'[l.offsets[i]..l.offsets[i + 1]] == buffer[l.offsets[i]..l.offsets[i + 1]];
      } else {
        assert buffer'[|buffer|..] == EntryBytes(shared, e);
      }
    }
    forall j | 0 <= j < |l'.marks| ensures MarkAt(l', j) {
      if j < |l.marks| {
        assert MarkAt(l, j);
      } else {
        assert MarkAt(l, |l.marks| - 1);
      }
    }
  }

  lemma RestartsGrow(l: Layout, buffer: seq<byte>, restarts: seq<nat>, buffer': seq<byte>, e: Entry, shared: nat,
                     restarting: bool)
    requires IsLayout(l, buffer) && Restarts(l, restarts)
    ensures Restarts(Grown(l, |buffer'|, e, shared, restarting), if restarting then restarts + [|buffer|] else restarts)
  {
    hide EntryAt, MarkAt;
  }
}
