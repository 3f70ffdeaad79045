/** Iteration through an index (table/two_level_iterator.cc): over the blocks of a table, or over the files of a level
    (`NewConcatenatingIterator` in db/version_set.cc). */
module TwoLevel {
  import opened InternalKeys
  import opened Merging

  /** What a handle in the index leads to. */
  type BlockFunction = string -> seq<Entry>

  function BlockAt(index: seq<Entry>, block: BlockFunction, i: nat): seq<Entry>
    requires i < |index|
  {
    block(index[i].value)
  }

  /** The entries of the first `n` blocks. */
  function Flat(index: seq<Entry>, block: BlockFunction, n: nat): seq<Entry>
    requires n <= |index|
  {
    if n == 0 then [] else Flat(index, block, n - 1) + BlockAt(index, block, n - 1)
  }

  /** Index keys ascend; each is at or after all keys of its block and before all keys of later blocks, which may be
      empty. */
  ghost predicate IsIndex(index: seq<Entry>, block: BlockFunction) {
    && SortedKeys(index)
    && (forall i :: 0 <= i < |index| ==> SortedKeys(BlockAt(index, block, i)))
    && (forall i, e :: 0 <= i < |index| && e in BlockAt(index, block, i) ==> AtOrBefore(e.key, index[i].key))
    && (forall i, j, e :: 0 <= i < j < |index| && e in BlockAt(index, block, j) ==> Before(index[i].key, e.key))
  }

  lemma {:induction false} FlatPrefix(index: seq<Entry>, block: BlockFunction, m: nat, n: nat)
    requires m <= n <= |index|
    ensures Flat(index, block, m) <= Flat(index, block, n)
    decreases n
  {
    if m < n {
      FlatPrefix(index, block, m, n - 1);
    }
  }

  /** The entries of a block within those of all blocks. */
  lemma FlatAt(index: seq<Entry>, block: BlockFunction, i: nat, q: nat)
    requires i < |index| && q < |BlockAt(index, block, i)|
    ensures var all, p := Flat(index, block, |index|), |Flat(index, block, i)| + q;
            p < |all| && all[p] == BlockAt(index, block, i)[q]
  {
    FlatPrefix(index, block, i + 1, |index|);
    assert Flat(index, block, i + 1) == Flat(index, block, i) + BlockAt(index, block, i);
  }

  /** Every entry stands in some block. */
  lemma {:induction false} FlatHome(index: seq<Entry>, block: BlockFunction, n: nat, p: nat) returns (i: nat, q: nat)
    requires n <= |index| && p < |Flat(index, block, n)|
    ensures i < n && q < |BlockAt(index, block, i)| && p == |Flat(index, block, i)| + q
    ensures Flat(index, block, n)[p] == BlockAt(index, block, i)[q]
  {
    var init := Flat(index, block, n - 1);
    if p < |init| {
      i, q := FlatHome(index, block, n - 1, p);
    } else {
      i, q := n - 1, p - |init|;
    }
  }

  lemma {:induction false} FlatGrows(index: seq<Entry>, block: BlockFunction, m: nat, n: nat)
    requires m <= n <= |index|
    ensures |Flat(index, block, m)| <= |Flat(index, block, n)|
    ensures m < n ==> |Flat(index, block, m)| + |BlockAt(index, block, m)| <= |Flat(index, block, n)|
    decreases n
  {
    if m < n {
      FlatGrows(index, block, m, n - 1);
    }
  }

  /** All entries together are sorted. */
  lemma FlatIsSorted(index: seq<Entry>, block: BlockFunction)
    requires IsIndex(index, block)
    ensures SortedKeys(Flat(index, block, |index|))
  {
    hide IsIndex, Flat, Before, AtOrBefore;
    var all := Flat(index, block, |index|);
    forall p, r | 0 <= p < r < |all| ensures Before(all[p].key, all[r].key) {
      var i, q := FlatHome(index, block, |index|, p);
      var j, s := FlatHome(index, block, |index|, r);
      if j < i {
        FlatGrows(index, block, j, i);
      }
      BlocksInOrder(index, block, i, q, j, s);
    }
  }

  lemma BlocksInOrder(index: seq<Entry>, block: BlockFunction, i: nat, q: nat, j: nat, s: nat)
    requires IsIndex(index, block) && i <= j < |index| && (i == j ==> q < s)
    requires q < |BlockAt(index, block, i)| && s < |BlockAt(index, block, j)|
    ensures Before(BlockAt(index, block, i)[q].key, BlockAt(index, block, j)[s].key)
  {
    hide Before;
    var a, b := BlockAt(index, block, i)[q], BlockAt(index, block, j)[s];
    assert SortedKeys(BlockAt(index, block, i));
    if i < j {
      assert a in BlockAt(index, block, i) && b in BlockAt(index, block, j);
      BeforeIsStrictTotalOrder(a.key, index[i].key, b.key);
    }
  }

  lemma FlatSteps(index: seq<Entry>, block: BlockFunction)
    ensures Flat(index, block, 0) == []
    ensures forall i :: 0 <= i < |index| ==>
              Flat(index, block, i + 1) == Flat(index, block, i) + BlockAt(index, block, i)
  {
  }

  lemma BlockIsSorted(index: seq<Entry>, block: BlockFunction, i: nat)
    requires IsIndex(index, block) && i < |index|
    ensures SortedKeys(BlockAt(index, block, i))
  {
  }

  /** Seeking the index and then its block finds the place among all entries. */
  lemma SeekFindsPlace(index: seq<Entry>, block: BlockFunction, target: InternalKey, i: nat, q: nat)
    requires IsIndex(index, block) && FirstAtOrAfter(index, target, i) && i < |index|
    requires FirstAtOrAfter(BlockAt(index, block, i), target, q)
    ensures FirstAtOrAfter(Flat(index, block, |index|), target, |Flat(index, block, i)| + q)
  {
    var all, n := Flat(index, block, |index|), |Flat(index, block, i)| + q;
    FlatGrows(index, block, i, |index|);
    forall p | 0 <= p < |all| ensures if p < n then Before(all[p].key, target) else AtOrBefore(target, all[p].key) {
      var j, s := FlatHome(index, block, |index|, p);
      assert all[p] in BlockAt(index, block, j);
      if j < i {
        FlatGrows(index, block, j, i);
        BeforeIsStrictTotalOrder(all[p].key, index[j].key, target);
      } else if i < j {
        FlatGrows(index, block, i, j);
        BeforeIsStrictTotalOrder(target, index[i].key, all[p].key);
      }
    }
  }

  /** When the target is after all index keys it is after all entries. */
  lemma NothingThere(index: seq<Entry>, block: BlockFunction, target: InternalKey)
    requires IsIndex(index, block) && FirstAtOrAfter(index, target, |index|)
    ensures FirstAtOrAfter(Flat(index, block, |index|), target, |Flat(index, block, |index|)|)
  {
    var all := Flat(index, block, |index|);
    forall p | 0 <= p < |all| ensures Before(all[p].key, target) {
      var j, s := FlatHome(index, block, |index|, p);
      assert all[p] in BlockAt(index, block, j);
      BeforeIsStrictTotalOrder(all[p].key, index[j].key, target);
    }
  }

  /** `TwoLevelIterator` */
  class TwoLevelIterator {
    const index: seq<Entry>
    const block: BlockFunction
    const indexIter: Cursor
    /** `data_iter_`, which may be null, and `data_block_handle_`. */
    var dataIter: Cursor?
    var dataHandle: string

    /** All entries, in order. */
    ghost function All(): seq<Entry> {
      Flat(index, block, |index|)
    }

    /** The data iterator, if there is one, is over the block that the index iterator stands at. */
    ghost predicate Linked()
      reads this, indexIter, dataIter
    {
      && IsIndex(index, block) && indexIter.entries == index && indexIter.Inv()
      && (dataIter != null ==> dataIter != indexIter && dataIter.Inv() && dataIter.entries == block(dataHandle))
    }

    ghost predicate AtIndex()
      reads this, indexIter, dataIter
    {
      && Linked()
      && (dataIter == null <==> !indexIter.Valid())
      && (dataIter != null ==> dataHandle == index[indexIter.pos].value)
    }

    predicate Valid()
      reads this, dataIter
    {
      dataIter != null && dataIter.Valid()
    }

    ghost predicate Inv()
      reads this, indexIter, dataIter
    {
      AtIndex() && (dataIter != null ==> dataIter.Valid())
    }

    /** Where the iterator stands among all entries, past the end if it is not valid. */
    ghost function Pos(): (p: nat)
      requires Inv()
      reads this, indexIter, dataIter
      ensures p <= |All()| && (Valid() <==> p < |All()|)
    {
      if dataIter == null then |All()|
      else
        FlatAt(index, block, indexIter.pos, dataIter.pos);
        |Flat(index, block, indexIter.pos)| + dataIter.pos
    }

    function Item(): (e: Entry)
      requires Inv() && Valid()
      reads this, indexIter, dataIter
      ensures e == All()[Pos()]
    {
      FlatAt(index, block, indexIter.pos, dataIter.pos);
      dataIter.entries[dataIter.pos]
    }

    constructor (index: seq<Entry>, block: BlockFunction)
      requires IsIndex(index, block)
      ensures Inv() && !Valid() && this.index == index && this.block == block && fresh(indexIter)
    {
      this.index, this.block := index, block;
      indexIter := new Cursor(index);
      dataIter, dataHandle := null, "";
    }

    /** `InitDataBlock` */
    method InitDataBlock()
      requires Linked()
      modifies this
      ensures AtIndex() && (dataIter != null ==> dataIter == old(dataIter) || fresh(dataIter))
    {
      hide IsIndex, SortedKeys;
      if !indexIter.Valid() {
        dataIter := null;
      } else {
        var handle := index[indexIter.pos].value;
        if dataIter != null && handle == dataHandle {
          // the data iterator is over this block already
        } else {
          BlockIsSorted(index, block, indexIter.pos);
          dataHandle := handle;
          dataIter := new Cursor(block(handle));
        }
      }
    }

    /** `SkipEmptyDataBlocksForward`: everything before position `n` has been passed. */
    method SkipEmptyDataBlocksForward(ghost n: nat)
      requires AtIndex()
      requires n == if dataIter == null then |All()| else |Flat(index, block, indexIter.pos)| + dataIter.pos
      modifies this, indexIter, dataIter
      ensures Inv() && Pos() == n && (dataIter != null ==> dataIter == old(dataIter) || fresh(dataIter))
    {
      hide IsIndex, SortedKeys, Flat;
      FlatSteps(index, block);
      while dataIter == null || !dataIter.Valid()
        invariant AtIndex() && (dataIter != null ==> dataIter == old(dataIter) || fresh(dataIter))
        invariant n == if dataIter == null then |All()| else |Flat(index, block, indexIter.pos)| + dataIter.pos
        decreases |index| - indexIter.pos
      {
        if !indexIter.Valid() {
          return;
        }
        ghost var i := indexIter.pos;
        assert n == |Flat(index, block, i + 1)|;
        indexIter.Next();
        InitDataBlock();
        if dataIter != null {
          dataIter.SeekToFirst();
        }
      }
    }

    /** `SkipEmptyDataBlocksBackward`: everything after position `n` has been passed. */
    method SkipEmptyDataBlocksBackward(ghost n: int)
      requires AtIndex()
      requires dataIter == null ==> n == -1
      requires dataIter != null ==>
                 n == |Flat(index, block, indexIter.pos)| + if dataIter.Valid() then dataIter.pos else -1
      modifies this, indexIter, dataIter
      ensures Inv() && Pos() == if n == -1 then |All()| else n
      ensures dataIter != null ==> dataIter == old(dataIter) || fresh(dataIter)
    {
      hide IsIndex, SortedKeys, Flat;
      FlatSteps(index, block);
      while dataIter == null || !dataIter.Valid()
        invariant AtIndex() && (dataIter != null ==> dataIter == old(dataIter) || fresh(dataIter))
        invariant dataIter == null ==> n == -1
        invariant dataIter != null ==>
                    n == |Flat(index, block, indexIter.pos)| + if dataIter.Valid() then dataIter.pos else -1
        decreases if dataIter == null then 0 else indexIter.pos + 1
      {
        if !indexIter.Valid() {
          return;
        }
        ghost var i := indexIter.pos;
        assert i > 0 ==> |Flat(index, block, i)| == |Flat(index, block, (i - 1) + 1)|;
        indexIter.Prev();
        InitDataBlock();
        if dataIter != null {
          dataIter.SeekToLast();
        }
      }
    }

    method Seek(target: InternalKey)
      requires Inv()
      modifies this, indexIter, dataIter
      ensures Inv() && FirstAtOrAfter(All(), target, Pos())
    {
      indexIter.Seek(target);
      InitDataBlock();
      ghost var n := |All()|;
      if dataIter != null {
        dataIter.Seek(target);
        SeekFindsPlace(index, block, target, indexIter.pos, dataIter.pos);
        n := |Flat(index, block, indexIter.pos)| + dataIter.pos;
      } else {
        NothingThere(index, block, target);
      }
      SkipEmptyDataBlocksForward(n);
    }

    method SeekToFirst()
      requires Inv()
      modifies this, indexIter, dataIter
      ensures Inv() && Pos() == 0
    {
      indexIter.SeekToFirst();
      InitDataBlock();
      if dataIter != null {
        dataIter.SeekToFirst();
      }
      SkipEmptyDataBlocksForward(0);
    }

    method SeekToLast()
      requires Inv()
      modifies this, indexIter, dataIter
      ensures Inv() && Pos() == if All() == [] then 0 else |All()| - 1
    {
      indexIter.SeekToLast();
      InitDataBlock();
      if dataIter != null {
        dataIter.SeekToLast();
      }
      SkipEmptyDataBlocksBackward(|All()| - 1);
    }

    method Next()
      requires Inv() && Valid()
      modifies this, indexIter, dataIter
      ensures Inv() && Pos() == old(Pos()) + 1
    {
      ghost var n := Pos() + 1;
      dataIter.Next();
      SkipEmptyDataBlocksForward(n);
    }

    method Prev()
      requires Inv() && Valid()
      modifies this, indexIter, dataIter
      ensures Inv() && Pos() == if old(Pos()) == 0 then |All()| else old(Pos()) - 1
    {
      ghost var n := Pos() - 1;
      dataIter.Prev();
      SkipEmptyDataBlocksBackward(n);
    }
  }
}
