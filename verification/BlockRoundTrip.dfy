/** Building a block and reading it back. */
module BlockRoundTrip {
  import opened Bytes
  import opened Coding
  import opened BlockFormat
  import opened BlockBuilders
  import opened BlockIterators

  /** `Block::Block`: where the restart array starts, found from the end of the block. */
  method OpenBlock(data: seq<byte>, ghost l: Layout, ghost restarts: nat)
      returns (ok: bool, restartOffset: nat, numRestarts: nat)
    ensures ok <==> |data| >= 4 && 4 * Unfixed(data[|data| - 4..]) + 4 <= |data|
    ensures ok ==> restartOffset + 4 * numRestarts + 4 == |data| && numRestarts == Unfixed(data[|data| - 4..])
    ensures IsBlock(l, data, restarts, |l.marks|) ==> ok && restartOffset == restarts && numRestarts == |l.marks|
  {
    hide IsLayout, Unfixed;
    if |data| < 4 {
      return false, 0, 0;
    }
    numRestarts := Unfixed(data[|data| - 4..]);
    var maxRestartsAllowed := (|data| - 4) / 4;
    if numRestarts > maxRestartsAllowed {
      return false, 0, 0;
    }
    return true, |data| - (1 + numRestarts) * 4, numRestarts;
  }

  method Build(entries: seq<Entry>, restartInterval: nat)
      returns (block: seq<byte>, ghost l: Layout, ghost restarts: nat)
    requires restartInterval >= 1
    requires forall i :: 0 <= i < |entries| ==> |entries[i].key| < TWO_TO_32 && |entries[i].value| < TWO_TO_32
    ensures l.entries == entries && |l.marks| > 0
    ensures |block| < TWO_TO_32 ==> IsBlock(l, block, restarts, |l.marks|)
  {
    hide IsLayout, Restarts, IsBlock, BlockBytes;
    var builder := new BlockBuilder(restartInterval);
    for i := 0 to |entries|
      invariant builder.Valid() && !builder.finished && builder.Entries() == entries[..i]
      invariant fresh(builder)
    {
      builder.Add(entries[i].key, entries[i].value);
    }
    l := builder.layout;
    restarts := |builder.buffer|;
    ghost var points := builder.restarts;
    ghost var buffer := builder.buffer;
    FirstMark(l, buffer, points);
    block := builder.Finish();
    assert entries[..|entries|] == entries;
    if |block| < TWO_TO_32 {
      FinishedIsBlock(l, buffer, points);
    }
  }

  /** The iterator over the finished block yields exactly the entries, in order; `Prev` goes back over the same. */
  method RoundTrip(place: Comparator, entries: seq<Entry>, restartInterval: nat)
    returns (block: seq<byte>, forward: seq<Entry>, backward: seq<Entry>)
    requires restartInterval >= 1 && Increasing(place, entries)
    requires forall i :: 0 <= i < |entries| ==> |entries[i].key| < TWO_TO_32 && |entries[i].value| < TWO_TO_32
    ensures |block| < TWO_TO_32 ==> forward == entries && backward == entries
  {
    hide *;
    ghost var l, restarts;
    block, l, restarts := Build(entries, restartInterval);
    var ok, offset, num := OpenBlock(block, l, restarts);
    forward, backward := [], [];
    if !ok || |block| >= TWO_TO_32 {
      return;
    }
    var iter := new Iter(place, block, offset, num, l);
    HasBlock(iter, |l.entries|);
    iter.SeekToFirst();
    ghost var n := |entries|;
    ghost var i := 0;
    iter.Places(0);
    while iter.IsValid()
      modifies iter
      invariant 0 <= i <= n && iter.At(i) && (iter.IsValid() <==> i < n)
      invariant forward == entries[..i]
      decreases n - i
    {
      EntryHere(iter, i);
      forward := forward + [Entry(iter.key, iter.data[iter.valueStart..iter.valueEnd])];
      iter.Next(i);
      i := i + 1;
      iter.Places(i);
    }
    assert entries[..n] == entries;
    iter.SeekToLast();
    i := if n == 0 then 0 else n - 1;
    iter.Places(i);
    ghost var left := n;
    while iter.IsValid()
      modifies iter
      invariant 0 <= left <= n && iter.At(if left == 0 then n else left - 1) && (iter.IsValid() <==> left > 0)
      invariant backward == entries[left..]
      decreases left
    {
      EntryHere(iter, left - 1);
      backward := [Entry(iter.key, iter.data[iter.valueStart..iter.valueEnd])] + backward;
      iter.Prev(left - 1);
      left := left - 1;
      iter.Places(if left == 0 then n else left - 1);
    }
  }

  lemma HasBlock(iter: Iter, i: nat)
    requires iter.At(i)
    ensures iter.ValidBlock() && iter.numRestarts == |iter.layout.marks|
  {
  }

  lemma EntryHere(iter: Iter, i: nat)
    requires iter.At(i) && i < |iter.layout.entries|
    ensures iter.valueStart <= iter.valueEnd <= |iter.data|
    ensures iter.layout.entries[i] == Entry(iter.key, iter.data[iter.valueStart..iter.valueEnd])
  {
  }
}
