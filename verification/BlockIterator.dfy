/** The iterator over a finished block (table/block.cc). */
module BlockIterators {
  import opened Common
  import opened Bytes
  import opened Coding
  import opened BlockFormat

  /** The block is the finished form of the layout. */
  ghost predicate IsBlock(l: Layout, data: seq<byte>, restarts: nat, numRestarts: nat) {
    && restarts <= |data| < TWO_TO_32 && numRestarts == |l.marks|
    && IsLayout(l, data[..restarts])
    && |data| == restarts + 4 * numRestarts + 4
    && (forall j :: 0 <= j < numRestarts ==> RestartAt(l, data, restarts, j))
    && (l.entries == [] ==> numRestarts == 1)
    && Unfixed(data[|data| - 4..]) == numRestarts
  }

  ghost predicate RestartAt(l: Layout, data: seq<byte>, restarts: nat, j: nat) {
    && j < |l.marks| && l.marks[j] < |l.offsets| && restarts + 4 * j + 4 <= |data|
    && Unfixed(data[restarts + 4 * j..restarts + 4 * j + 4]) == l.offsets[l.marks[j]]
  }

  lemma HasMarks(l: Layout, buffer: seq<byte>)
    requires IsLayout(l, buffer)
    ensures |l.marks| > 0
  {
  }

  lemma FinishedIsBlock(l: Layout, buffer: seq<byte>, restarts: seq<nat>)
    requires IsLayout(l, buffer) && Restarts(l, restarts) && |BlockBytes(buffer, restarts)| < TWO_TO_32
    requires l.entries == [] ==> |l.marks| == 1
    ensures IsBlock(l, BlockBytes(buffer, restarts), |buffer|, |restarts|)
  {
    hide Fixed, Unfixed, RestartArray, IsLayout, Power256;
    HasMarks(l, buffer);
    var data := BlockBytes(buffer, restarts);
    RestartArrayAt(restarts, 0);
    assert data[..|buffer|] == buffer;
    PowersOf256();
    forall j | 0 <= j < |restarts| ensures RestartAt(l, data, |buffer|, j) {
      RestartArrayAt(restarts, j);
      assert data[|buffer| + 4 * j..|buffer| + 4 * j + 4] == RestartArray(restarts)[4 * j..4 * j + 4];
      OffsetInBlock(l, buffer, restarts, j);
      FixedRoundTrip(restarts[j], 4);
    }
    assert data[|data| - 4..] == Fixed(|restarts|, 4);
    FixedRoundTrip(|restarts|, 4);
  }

  lemma OffsetInBlock(l: Layout, buffer: seq<byte>, restarts: seq<nat>, j: nat)
    requires IsLayout(l, buffer) && Restarts(l, restarts) && j < |restarts|
    ensures restarts[j] <= |buffer|
  {
    var i := l.marks[j];
    if i < |l.entries| {
      OffsetsAscend(l, buffer, i, |l.entries|);
    }
  }

  /** The entries from `i` on are those at or after the target. */
  ghost predicate Lands(place: Comparator, entries: seq<Entry>, target: seq<byte>, i: nat) {
    && i <= |entries|
    && (forall k :: 0 <= k < i ==> place(entries[k].key) < place(target))
    && (forall k :: i <= k < |entries| ==> place(entries[k].key) >= place(target))
  }

  class Iter {
    const place: Comparator
    const data: seq<byte>
    const restarts: nat
    const numRestarts: nat
    var current: nat
    var restartIndex: nat
    var key: seq<byte>
    /** The value is the bytes of the block from `valueStart` to `valueEnd`. */
    var valueStart: nat
    var valueEnd: nat
    ghost const layout: Layout

    ghost predicate ValidBlock() {
      IsBlock(layout, data, restarts, numRestarts) && Increasing(place, layout.entries)
    }

    /** The entry at restart point `r` is not after entry `i`, and the next one is not before it. */
    ghost predicate IndexFits(r: nat, i: nat) {
      && r < numRestarts == |layout.marks| && layout.marks[r] <= i
      && (r + 1 < numRestarts ==> layout.marks[r + 1] >= i)
    }

    /** The iterator stands at entry `i`; past the end if there is no such entry. */
    ghost predicate At(i: nat)
      reads this
    {
      && ValidBlock() && i <= |layout.entries| && |layout.offsets| == |layout.entries| + 1
      && if i == |layout.entries| then current == restarts && restartIndex == numRestarts else
           && current == layout.offsets[i] && key == layout.entries[i].key
           && valueStart <= valueEnd <= restarts && data[valueStart..valueEnd] == layout.entries[i].value
           && valueEnd == layout.offsets[i + 1] && IndexFits(restartIndex, i)
    }

    /** Before entry `i`: the next entry to parse. */
    ghost predicate Before(i: nat)
      reads this
    {
      && ValidBlock() && i <= |layout.entries|
      && |layout.offsets| == |layout.entries| + 1 == |layout.shared| + 1
      && valueEnd == layout.offsets[i]
      && (i < |layout.entries| && layout.shared[i] > 0 ==> i > 0 && key == layout.entries[i - 1].key)
      && restartIndex < numRestarts == |layout.marks| && layout.marks[restartIndex] <= i
    }

    constructor (place: Comparator, data: seq<byte>, restarts: nat, numRestarts: nat, ghost layout: Layout)
      requires IsBlock(layout, data, restarts, numRestarts) && Increasing(place, layout.entries)
      ensures At(|layout.entries|) && this.layout == layout && this.place == place
    {
      this.place, this.data, this.restarts, this.numRestarts, this.layout := place, data, restarts, numRestarts, layout;
      current, restartIndex, key, valueStart, valueEnd := restarts, numRestarts, [], 0, 0;
    }

    predicate IsValid()
      reads this
    {
      current < restarts
    }

    lemma Places(i: nat)
      requires At(i)
      ensures IsValid() <==> i < |layout.entries|
    {
      if i < |layout.entries| {
        OffsetsAscend(layout, data[..restarts], i, |layout.entries|);
      }
    }

    lemma HasLayout()
      requires ValidBlock()
      ensures restarts <= |data| < TWO_TO_32 && IsLayout(layout, data[..restarts])
    {
    }

    method GetRestartPoint(index: nat) returns (offset: nat)
      requires ValidBlock() && index < numRestarts
      ensures |layout.marks| == numRestarts && layout.marks[index] < |layout.offsets|
      ensures offset == layout.offsets[layout.marks[index]]
    {
      assert RestartAt(layout, data, restarts, index);
      return Unfixed(data[restarts + 4 * index..restarts + 4 * index + 4]);
    }

    method SeekToRestartPoint(index: nat)
      requires ValidBlock() && index < numRestarts
      modifies this
      ensures index < |layout.marks| && Before(layout.marks[index]) && restartIndex == index
    {
      assert MarkAt(layout, index);
      key := [];
      restartIndex := index;
      var offset := GetRestartPoint(index);
      valueStart, valueEnd := offset, offset;
    }

    /** An entry parsed is an entry behind. */
    lemma NextIsBefore(i: nat)
      requires At(i) && i < |layout.entries|
      ensures Before(i + 1)
    {
      if i + 1 < |layout.entries| {
        assert EntryAt(layout, data[..restarts], i + 1);
      }
    }

    /** Offsets are ordered as the entries are. */
    lemma OffsetOrder(i: nat, j: nat)
      requires ValidBlock() && i <= |layout.entries| && j <= |layout.entries|
      ensures |layout.offsets| == |layout.entries| + 1
      ensures layout.offsets[i] < layout.offsets[j] <==> i < j
      ensures layout.offsets[|layout.entries|] == restarts
    {
      if i < j {
        OffsetsAscend(layout, data[..restarts], i, j);
      } else if j < i {
        OffsetsAscend(layout, data[..restarts], j, i);
      }
    }

    method ParseNextKey(ghost i: nat) returns (parsed: bool)
      requires Before(i)
      modifies this
      ensures At(i) && (parsed <==> i < |layout.entries|)
    {
      hide IsBlock, Increasing, ParseHeader, IsLayout, Unfixed;
      HasLayout();
      OffsetOrder(i, |layout.entries|);
      current := valueEnd;
      if current >= restarts {
        current := restarts;
        restartIndex := numRestarts;
        return false;
      }
      DecodesAt(layout, data[..restarts], i);
      assert data[..restarts][current..] == data[current..restarts];
      EntrySharesPrefix(i);
      HeaderLeavesSuffix(data[current..restarts]);
      var header := DecodeEntry(data[current..restarts]);
      if header.NotParsed? || |key| < header.value.shared {
        assert false;
      }
      var h, p := header.value, restarts - |header.rest|;
      key := key[..h.shared] + header.rest[..h.nonShared];
      valueStart := p + h.nonShared;
      valueEnd := valueStart + h.valueLength;
      ParsedEntry(i, h, header.rest);
      ForwardRestart(i);
      return true;
    }

    /** The loop at the end of `ParseNextKey`: to the last restart point before the entry. */
    method ForwardRestart(ghost i: nat)
      requires ValidBlock() && |layout.offsets| == |layout.entries| + 1 && i < |layout.entries|
      requires current == layout.offsets[i]
      requires restartIndex < numRestarts == |layout.marks| && layout.marks[restartIndex] <= i
      modifies this`restartIndex
      ensures IndexFits(restartIndex, i)
    {
      hide ValidBlock;
      while restartIndex + 1 < numRestarts
        invariant restartIndex < numRestarts && layout.marks[restartIndex] <= i
        decreases numRestarts - restartIndex
      {
        var offset := GetRestartPoint(restartIndex + 1);
        MarkInRange(restartIndex + 1);
        OffsetOrder(layout.marks[restartIndex + 1], i);
        if offset >= current {
          break;
        }
        restartIndex := restartIndex + 1;
      }
    }

    lemma MarkInRange(r: nat)
      requires ValidBlock() && r < |layout.marks|
      ensures layout.marks[r] <= |layout.entries|
    {
      assert MarkAt(layout, r);
    }

    lemma EntrySharesPrefix(i: nat)
      requires Before(i) && i < |layout.entries|
      ensures var e, shared := layout.entries[i], layout.shared[i];
              shared <= |e.key| && shared <= |key| && key[..shared] == e.key[..shared]
    {
      assert EntryAt(layout, data[..restarts], i);
    }

    /** The value of the entry is part of the block. */
    lemma ParsedEntry(i: nat, h: Header, rest: seq<byte>)
      requires ValidBlock() && i < |layout.entries| && |rest| <= restarts <= |data|
      requires h.nonShared + h.valueLength <= |rest| && rest == data[restarts - |rest|..restarts]
      ensures var start := restarts - |rest| + h.nonShared;
              data[start..start + h.valueLength] == rest[h.nonShared..h.nonShared + h.valueLength]
    {
      SliceOfSlice(data, restarts - |rest|, restarts, h.nonShared, h.nonShared + h.valueLength);
    }

    method Next(ghost i: nat)
      requires At(i) && IsValid()
      modifies this
      ensures i < |layout.entries| && At(i + 1)
    {
      Places(i);
      NextIsBefore(i);
      var _ := ParseNextKey(i + 1);
    }

    method Prev(ghost i: nat)
      requires At(i) && IsValid()
      modifies this
      ensures At(if i == 0 then |layout.entries| else i - 1)
    {
      hide IsBlock, IsLayout, Increasing;
      Places(i);
      var original := current;
      while true
        invariant At(i) && original == current && restartIndex < numRestarts
        decreases restartIndex
      {
        var offset := GetRestartPoint(restartIndex);
        OffsetOrder(layout.marks[restartIndex], i);
        if offset < original {
          break;
        }
        if restartIndex == 0 {
          FirstMarkIs();
          current := restarts;
          restartIndex := numRestarts;
          return;
        }
        EarlierMark(restartIndex);
        restartIndex := restartIndex - 1;
      }
      ghost var k := layout.marks[restartIndex];
      SeekToRestartPoint(restartIndex);
      while true
        invariant k < i && Before(k)
        decreases i - k
      {
        var parsed := ParseNextKey(k);
        OffsetOrder(k + 1, i);
        if !parsed || valueEnd >= original {
          break;
        }
        NextIsBefore(k);
        k := k + 1;
      }
    }

    lemma FirstMarkIs()
      requires ValidBlock()
      ensures |layout.marks| > 0 && layout.marks[0] == 0
    {
      assert MarkAt(layout, 0);
    }

    lemma EarlierMark(r: nat)
      requires ValidBlock() && 0 < r < numRestarts
      ensures |layout.marks| == numRestarts && layout.marks[r - 1] < layout.marks[r] < |layout.entries|
    {
      assert MarkAt(layout, r);
    }

    method SeekToFirst()
      requires ValidBlock() && numRestarts > 0
      modifies this
      ensures At(0)
    {
      SeekToRestartPoint(0);
      FirstMarkIs();
      var _ := ParseNextKey(0);
    }

    method SeekToLast()
      requires ValidBlock() && numRestarts > 0
      modifies this
      ensures At(if layout.entries == [] then 0 else |layout.entries| - 1)
    {
      hide IsBlock, IsLayout, Increasing;
      SeekToRestartPoint(numRestarts - 1);
      ghost var k := layout.marks[numRestarts - 1];
      LastMarkIs();
      while true
        invariant Before(k) && (k < |layout.entries| || layout.entries == [])
        decreases |layout.entries| - k
      {
        var parsed := ParseNextKey(k);
        if !parsed {
          break;
        }
        OffsetOrder(k + 1, |layout.entries|);
        if valueEnd >= restarts {
          break;
        }
        NextIsBefore(k);
        k := k + 1;
      }
    }

    lemma LastMarkIs()
      requires ValidBlock() && numRestarts > 0
      ensures |layout.marks| == numRestarts
      ensures (layout.entries == [] || layout.marks[numRestarts - 1] < |layout.entries|)
    {
      assert MarkAt(layout, numRestarts - 1);
    }

    /** The first key of a restart block, read without parsing what precedes it. */
    method KeyAtRestart(index: nat) returns (midKey: seq<byte>)
      requires ValidBlock() && 0 < index < numRestarts
      ensures |layout.marks| == numRestarts && layout.marks[index] < |layout.entries|
      ensures midKey == layout.entries[layout.marks[index]].key
    {
      hide IsBlock, Increasing, ParseHeader, IsLayout, Unfixed;
      HasLayout();
      EarlierMark(index);
      var offset := GetRestartPoint(index);
      ghost var i := layout.marks[index];
      DecodesAt(layout, data[..restarts], i);
      assert data[..restarts][offset..] == data[offset..restarts];
      NothingSharedAt(index);
      var header := DecodeEntry(data[offset..restarts]);
      if header.NotParsed? || header.value.shared != 0 {
        assert false;
      }
      return header.rest[..header.value.nonShared];
    }

    lemma NothingSharedAt(index: nat)
      requires ValidBlock() && index < numRestarts
      ensures |layout.marks| == numRestarts && |layout.shared| == |layout.entries|
      ensures layout.marks[index] < |layout.entries| ==> layout.shared[layout.marks[index]] == 0
    {
      assert MarkAt(layout, index);
    }

    lemma KeysAscend(i: nat, j: nat)
      requires ValidBlock() && i < j < |layout.entries|
      ensures place(layout.entries[i].key) < place(layout.entries[j].key)
    {
    }

    /** Binary search over the restart points, then a linear search: stands at the first entry whose key is not less
        than the target. */
    method Seek(target: seq<byte>) returns (ghost i: nat)
      requires ValidBlock() && numRestarts > 0
      modifies this
      ensures At(i) && Lands(place, layout.entries, target, i)
    {
      hide IsBlock, IsLayout, Increasing;
      var left: nat, right: nat := 0, numRestarts - 1;
      FirstMarkIs();
      NothingSharedAt(0);
      while left < right
        modifies {}
        invariant left <= right < numRestarts == |layout.marks|
        invariant left > 0 ==> layout.marks[left] < |layout.entries|
        invariant left > 0 ==> place(layout.entries[layout.marks[left]].key) < place(target)
        decreases right - left
      {
        var mid := (left + right + 1) / 2;
        var midKey := KeyAtRestart(mid);
        if place(midKey) < place(target) {
          left := mid;
        } else {
          right := mid - 1;
        }
      }
      SeekToRestartPoint(left);
      i := layout.marks[left];
      forall k | 0 <= k < i ensures place(layout.entries[k].key) < place(target) {
        KeysAscend(k, i);
      }
      while true
        invariant Before(i) && forall k :: 0 <= k < i ==> place(layout.entries[k].key) < place(target)
        decreases |layout.entries| - i
      {
        var parsed := ParseNextKey(i);
        if !parsed {
          return;
        }
        if place(key) >= place(target) {
          forall k | i <= k < |layout.entries| ensures place(layout.entries[k].key) >= place(target) {
            if k > i {
              KeysAscend(i, k);
            }
          }
          return;
        }
        NextIsBefore(i);
        i := i + 1;
      }
    }
  }
}
