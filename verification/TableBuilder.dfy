/** table/table_builder.cc.  When a block is full and how large it is are inputs. */
module TableBuilders {
  import opened Common
  import opened Separators
  import opened Bloom
  import opened FilterBlocks
  import opened Tables

  /** Index entries for all blocks that another follows. */
  ghost predicate IndexValid(all: seq<Block>, index: seq<IndexEntry>) {
    && |all| == |index| + (if all == [] then 0 else 1)
    && forall i, j :: 0 <= i < |index| && j == i + 1 < |all| ==> Indexed(all[i], all[j], index[i])
  }

  /** The filters cover what is in the blocks, or will. */
  ghost predicate AllCovered(all: seq<Block>, hash: Hash, filters: seq<BlockFilter>, keys: seq<ByteKey>) {
    forall i, e :: 0 <= i < |all| && e in all[i].entries ==>
      WillCover(hash, filters, keys, all[i].handle.offset / FILTER_BASE, e.key.user)
  }

  ghost predicate IsLastKey(all: seq<Block>, key: PackedKey) {
    all != [] ==> all[|all| - 1].entries != [] && key == LastKey(all[|all| - 1])
  }

  class TableBuilder {
    const hasFilter: bool
    const filter: FilterBlockBuilder
    var offset: nat
    var dataBlock: seq<Entry>
    var blocks: seq<Block>
    var index: seq<IndexEntry>
    var pendingIndexEntry: bool
    var pendingHandle: Handle
    var lastKey: PackedKey
    /** What was added. */
    ghost var entries: seq<Entry>

    /** The blocks in the file, and the one that is being built. */
    ghost function All(): seq<Block>
      reads this
    {
      if dataBlock == [] then blocks else blocks + [Block(Handle(offset, 0), dataBlock)]
    }

    ghost predicate Valid()
      reads this, filter
    {
      && filter.Valid() && BlocksValid(All()) && IndexFits() && IsLastKey(All(), lastKey)
      && (pendingIndexEntry <==> blocks != [] && dataBlock == [])
      && (pendingIndexEntry ==> pendingHandle == blocks[|blocks| - 1].handle)
      && (forall i :: 0 <= i < |blocks| ==> blocks[i].handle.offset < offset)
      && (hasFilter ==>
            && |filter.filters| == offset / FILTER_BASE
            && AllCovered(All(), filter.hash, filter.filters, filter.keys))
      && (forall e :: e in entries <==> InBlocks(All(), e))
    }

    ghost predicate IndexFits()
      reads this
    {
      IndexValid(All(), index)
    }

    constructor (hasFilter: bool, hash: Hash, bitsPerKey: nat, probes: nat)
      requires 1 <= probes <= 30
      ensures Valid() && entries == [] && fresh(filter) && filter.hash == hash && this.hasFilter == hasFilter
    {
      this.hasFilter := hasFilter;
      filter := new FilterBlockBuilder(hash, bitsPerKey, probes);
      offset, dataBlock, blocks, index, pendingIndexEntry, pendingHandle := 0, [], [], [], false, Handle(0, 0);
      lastKey := PackedKey([], 0);
      entries := [];
    }

    /** The index entry of the last block, which had to wait for the first key of the next. */
    method AddIndexEntry(ghost block: Block, key: PackedKey)
      requires pendingIndexEntry && All() != [] && pendingHandle == All()[|All()| - 1].handle
      requires IndexValid(All(), index) && IsLastKey(All(), lastKey) && block.entries != []
      requires block.entries[0].key == key
      modifies this`index, this`pendingIndexEntry, this`lastKey
      ensures !pendingIndexEntry && IndexValid(old(All()) + [block], index)
    {
      hide IndexValid, Separates;
      ghost var index0 := index;
      lastKey := FindInternalSeparator(lastKey, key);
      index := index + [IndexEntry(lastKey, pendingHandle)];
      pendingIndexEntry := false;
      IndexGrows(All(), index0, index[|index0|], block);
    }

    /** `full`: the block has reached its size, and takes `size` bytes in the file. */
    method Add(key: PackedKey, value: string, full: bool, size: nat)
      requires Valid() && (entries != [] ==> PackedBefore(lastKey, key))
      modifies this, filter
      ensures Valid() && entries == old(entries) + [Entry(key, value)] && lastKey == key
    {
      AddToBlock(key, value);
      if full {
        Flush(size);
      }
    }

    /** The entry goes to the block that is being built, which may begin with it. */
    method AddToBlock(key: PackedKey, value: string)
      requires Valid() && (entries != [] ==> PackedBefore(lastKey, key))
      modifies this, filter
      ensures Valid() && entries == old(entries) + [Entry(key, value)] && lastKey == key
    {
      hide BlocksValid, IndexValid, PackedBefore, InBlocks, Separates, AllCovered, Indexed;
      var e := Entry(key, value);
      ghost var all := All();
      ghost var block := Block(Handle(offset, 0), [e]);
      NotEmpty(all, entries, lastKey);
      if pendingIndexEntry {
        AddIndexEntry(block, key);
      }
      if dataBlock == [] {
        BlockBegins(all, block, e);
        if all == [] {
          FirstBlock(index, block);
        }
      } else {
        BlockGrows(all, index, e);
      }
      if hasFilter {
        filter.AddKey(key.user);
        if dataBlock == [] {
          CoversNewBlock(all, block, filter.hash, filter.filters, old(filter.keys), e);
        } else {
          CoversMore(all, filter.hash, filter.filters, old(filter.keys), e);
        }
      }
      lastKey := key;
      dataBlock := dataBlock + [e];
      entries := entries + [e];
      if old(dataBlock) == [] {
        assert dataBlock == [e];
        assert All() == all + [block];
      } else {
        assert All() == all[|all| - 1 := WithEntry(all[|all| - 1], e)];
      }
    }

    method Flush(size: nat)
      requires Valid()
      modifies this, filter
      ensures Valid() && entries == old(entries) && dataBlock == [] && (entries != [] ==> lastKey == old(lastKey))
      ensures old(dataBlock) == [] ==> blocks == old(blocks) && offset == old(offset)
      ensures old(dataBlock) != [] ==>
                && blocks == old(blocks) + [Block(Handle(old(offset), size), old(dataBlock))]
                && offset == old(offset) + size + 5
    {
      hide BlocksValid, IndexValid, PackedBefore, InBlocks, Separates, AllCovered, Indexed;
      if dataBlock == [] {
        return;
      }
      ghost var all := All();
      pendingHandle := Handle(offset, size);
      blocks := blocks + [Block(pendingHandle, dataBlock)];
      dataBlock := [];
      offset := offset + size + TRAILER;
      pendingIndexEntry := true;
      assert blocks == all[|all| - 1 := all[|all| - 1].(handle := pendingHandle)];
      SizeChangesNothing(all, index, pendingHandle);
      ghost var keys, filters := filter.keys, filter.filters;
      if hasFilter {
        SizeChangesNoFilter(all, pendingHandle, filter.hash, filters, keys);
        filter.StartBlock(offset);
        StaysCovered(blocks, filter.hash, filters, keys, filter.filters, filter.keys);
      }
    }

    /** The finished table holds exactly what was added. */
    method Finish() returns (t: Table)
      requires Valid()
      modifies this, filter
      ensures TableValid(t) && t.hasFilter == hasFilter
      ensures forall e :: e in old(entries) <==> InBlocks(t.blocks, e)
    {
      hide BlocksValid, IndexValid, PackedBefore, InBlocks, Separates, AllCovered, Indexed, FilterAt;
      Flush(0);
      ghost var index0 := index;
      ghost var keys, filters := filter.keys, filter.filters;
      if hasFilter {
        filter.Finish();
      }
      if pendingIndexEntry {
        lastKey := FindInternalSuccessor(lastKey);
        index := index + [IndexEntry(lastKey, pendingHandle)];
        pendingIndexEntry := false;
      }
      t := Table(blocks, index, filter.hash, hasFilter, filter.filters);
      if hasFilter {
        StaysCovered(blocks, filter.hash, filters, keys, filter.filters, filter.keys);
        AllFilters(t);
      }
      FinishedIndex(t, index0);
    }
  }

  /** With the last index entry the table is complete. */
  lemma FinishedIndex(t: Table, index: seq<IndexEntry>)
    requires BlocksValid(t.blocks) && IndexValid(t.blocks, index)
    requires if t.blocks == [] then t.index == index else
               && |t.index| == |index| + 1 && t.index[..|index|] == index && t.blocks[|t.blocks| - 1].entries != []
               && t.index[|index|].handle == t.blocks[|t.blocks| - 1].handle
               && PackedAtOrBefore(LastKey(t.blocks[|t.blocks| - 1]), t.index[|index|].key)
    requires t.hasFilter ==> forall i :: 0 <= i < |t.blocks| && t.blocks[i].entries != [] ==>
              FilterAt(t.hash, t.filters, t.blocks[i])
    ensures TableValid(t)
  {
    hide PackedBefore, Separates, FilterAt, Increasing;
  }

  function WithEntry(b: Block, e: Entry): Block {
    b.(entries := b.entries + [e])
  }

  lemma NotEmpty(all: seq<Block>, entries: seq<Entry>, lastKey: PackedKey)
    requires IsLastKey(all, lastKey) && forall e :: e in entries <==> InBlocks(all, e)
    ensures all != [] ==> entries != []
  {
    if all != [] {
      var e := all[|all| - 1].entries[0];
      assert InBlocks(all, e);
    }
  }

  lemma IndexGrows(all: seq<Block>, index: seq<IndexEntry>, entry: IndexEntry, block: Block)
    requires IndexValid(all, index) && all != [] && all[|all| - 1].entries != [] && block.entries != []
    requires entry.handle == all[|all| - 1].handle
    requires Separates(LastKey(all[|all| - 1]), entry.key, block.entries[0].key)
    ensures IndexValid(all + [block], index + [entry])
  {
    hide Separates;
  }

  lemma FirstBlock(index: seq<IndexEntry>, block: Block)
    requires IndexValid([], index)
    ensures IndexValid([] + [block], index)
  {
  }

  lemma BlockBegins(all: seq<Block>, block: Block, e: Entry)
    requires BlocksValid(all) && block.entries == [e]
    requires all != [] ==>
              && all[|all| - 1].entries != [] && PackedBefore(LastKey(all[|all| - 1]), e.key)
              && all[|all| - 1].handle.offset < block.handle.offset
    ensures BlocksValid(all + [block]) && IsLastKey(all + [block], e.key)
    ensures forall x :: InBlocks(all + [block], x) <==> InBlocks(all, x) || x == e
  {
    hide PackedBefore;
    forall x | InBlocks(all, x) ensures InBlocks(all + [block], x) {
      var i :| 0 <= i < |all| && x in all[i].entries;
      assert (all + [block])[i] == all[i];
    }
    assert (all + [block])[|all|] == block;
    assert InBlocks(all + [block], e);
  }

  lemma BlockGrows(all: seq<Block>, index: seq<IndexEntry>, e: Entry)
    requires BlocksValid(all) && IndexValid(all, index) && all != []
    requires all[|all| - 1].entries != [] && PackedBefore(LastKey(all[|all| - 1]), e.key)
    ensures var all' := all[|all| - 1 := WithEntry(all[|all| - 1], e)];
            && BlocksValid(all') && IndexValid(all', index) && IsLastKey(all', e.key)
            && (forall x :: InBlocks(all', x) <==> InBlocks(all, x) || x == e)
  {
    var last := |all| - 1;
    var all' := all[last := WithEntry(all[last], e)];
    GrowsIncreasing(all[last].entries, e);
    hide PackedBefore, Increasing, Separates;
    forall i, j | 0 <= i && j == i + 1 < |all'| ensures Follows(all'[i], all'[j]) {
      assert Follows(all[i], all[j]);
    }
    forall i, j | 0 <= i < |index| && j == i + 1 < |all'| ensures Indexed(all'[i], all'[j], index[i]) {
      assert Indexed(all[i], all[j], index[i]);
    }
    forall x | InBlocks(all, x) || x == e ensures InBlocks(all', x) {
      if x == e {
        assert e in all'[last].entries;
      } else {
        var i :| 0 <= i < |all| && x in all[i].entries;
        assert x in all'[i].entries;
      }
    }
    forall x | InBlocks(all', x) ensures InBlocks(all, x) || x == e {
      var i :| 0 <= i < |all'| && x in all'[i].entries;
      if x != e {
        assert x in all[i].entries;
      }
    }
  }

  lemma GrowsIncreasing(entries: seq<Entry>, e: Entry)
    requires Increasing(entries) && entries != [] && PackedBefore(entries[|entries| - 1].key, e.key)
    ensures Increasing(entries + [e])
  {
    forall i | 0 <= i < |entries| ensures PackedBefore(entries[i].key, e.key) {
      if i < |entries| - 1 {
        BeforeIsTransitive(entries[i].key, entries[|entries| - 1].key, e.key);
      }
    }
  }

  lemma CoversNewBlock(all: seq<Block>, block: Block, hash: Hash, filters: seq<BlockFilter>, keys: seq<ByteKey>,
                       e: Entry)
    requires AllCovered(all, hash, filters, keys) && block.entries == [e]
    requires block.handle.offset / FILTER_BASE == |filters|
    ensures AllCovered(all + [block], hash, filters, keys + [e.key.user])
  {
    hide Covers;
  }

  lemma CoversMore(all: seq<Block>, hash: Hash, filters: seq<BlockFilter>, keys: seq<ByteKey>, e: Entry)
    requires AllCovered(all, hash, filters, keys) && all != []
    requires all[|all| - 1].handle.offset / FILTER_BASE == |filters|
    ensures AllCovered(all[|all| - 1 := WithEntry(all[|all| - 1], e)], hash, filters, keys + [e.key.user])
  {
    hide Covers;
  }

  lemma SizeChangesNothing(all: seq<Block>, index: seq<IndexEntry>, handle: Handle)
    requires BlocksValid(all) && IndexValid(all, index) && all != [] && handle.offset == all[|all| - 1].handle.offset
    ensures var all' := all[|all| - 1 := all[|all| - 1].(handle := handle)];
            && BlocksValid(all') && IndexValid(all', index)
            && (forall key :: IsLastKey(all, key) ==> IsLastKey(all', key))
            && (forall x :: InBlocks(all', x) <==> InBlocks(all, x))
  {
    hide PackedBefore, Increasing, Separates;
    var all' := all[|all| - 1 := all[|all| - 1].(handle := handle)];
    forall i, j | 0 <= i && j == i + 1 < |all'| ensures Follows(all'[i], all'[j]) {
      assert Follows(all[i], all[j]);
    }
    forall i, j | 0 <= i < |index| && j == i + 1 < |all'| ensures Indexed(all'[i], all'[j], index[i]) {
      assert Indexed(all[i], all[j], index[i]);
    }
    forall x ensures InBlocks(all', x) <==> InBlocks(all, x) {
      assert forall i :: 0 <= i < |all| ==> all'[i].entries == all[i].entries;
    }
  }

  lemma SizeChangesNoFilter(all: seq<Block>, handle: Handle, hash: Hash, filters: seq<BlockFilter>, keys: seq<ByteKey>)
    requires AllCovered(all, hash, filters, keys) && all != [] && handle.offset == all[|all| - 1].handle.offset
    ensures AllCovered(all[|all| - 1 := all[|all| - 1].(handle := handle)], hash, filters, keys)
  {
    hide Covers;
  }

  /** Generating filters keeps what is covered. */
  lemma StaysCovered(all: seq<Block>, hash: Hash, filters: seq<BlockFilter>, keys: seq<ByteKey>,
                     filters': seq<BlockFilter>, keys': seq<ByteKey>)
    requires AllCovered(all, hash, filters, keys) && IsPrefix(filters, filters')
    requires |filters'| == |filters| ==> keys' == keys
    requires |filters'| > |filters| ==> forall user :: user in keys ==> Covers(hash, filters'[|filters|], user)
    ensures AllCovered(all, hash, filters', keys')
  {
    hide Covers;
  }

  lemma AllFilters(t: Table)
    requires AllCovered(t.blocks, t.hash, t.filters, [])
    ensures forall i :: 0 <= i < |t.blocks| && t.blocks[i].entries != [] ==> FilterAt(t.hash, t.filters, t.blocks[i])
  {
    hide Covers;
    forall i | 0 <= i < |t.blocks| && t.blocks[i].entries != [] ensures FilterAt(t.hash, t.filters, t.blocks[i]) {
      var b := t.blocks[i];
      var index := b.handle.offset / FILTER_BASE;
      assert WillCover(t.hash, t.filters, [], index, b.entries[0].key.user);
      forall e | e in b.entries ensures Covers(t.hash, t.filters[index], e.key.user) {
        assert WillCover(t.hash, t.filters, [], index, e.key.user);
      }
    }
  }
}
