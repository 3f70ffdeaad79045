/** Tables: data blocks, an index of shortened separators, and filters (table/table_builder.cc, table/table.cc).  A
block is the sequence of its entries here; what its bytes look like is the subject of BlockFormat. */
module Tables {
  import opened Common
  import opened Separators
  import opened Bloom
  import opened FilterBlocks

  datatype Entry = Entry(key: PackedKey, value: string)

  datatype Handle = Handle(offset: nat, size: nat)

  datatype IndexEntry = IndexEntry(key: PackedKey, handle: Handle)

  /** A block in the file. */
  datatype Block = Block(handle: Handle, entries: seq<Entry>)

  /** The type byte and the checksum that follow a block. */
  const TRAILER := 5

  ghost predicate Increasing(entries: seq<Entry>) {
    forall i, j :: 0 <= i < j < |entries| ==> PackedBefore(entries[i].key, entries[j].key)
  }

  function LastKey(b: Block): PackedKey
    requires b.entries != []
  {
    b.entries[|b.entries| - 1].key
  }

  /** The entries of a block come before those of the next, which is further on in the file. */
  ghost predicate Follows(a: Block, b: Block) {
    && a.entries != [] && b.entries != [] && PackedBefore(LastKey(a), b.entries[0].key)
    && a.handle.offset < b.handle.offset
  }

  ghost predicate BlocksValid(blocks: seq<Block>) {
    && (forall i :: 0 <= i < |blocks| ==> blocks[i].entries != [] && Increasing(blocks[i].entries))
    && (forall i, j :: 0 <= i && j == i + 1 < |blocks| ==> Follows(blocks[i], blocks[j]))
  }

  /** The index entry of a block that another follows. */
  ghost predicate Indexed(a: Block, b: Block, e: IndexEntry) {
    a.entries != [] && b.entries != [] && e.handle == a.handle && Separates(LastKey(a), e.key, b.entries[0].key)
  }

  ghost predicate FilterAt(hash: Hash, filters: seq<BlockFilter>, b: Block) {
    var index := b.handle.offset / FILTER_BASE;
    index < |filters| && forall e :: e in b.entries ==> Covers(hash, filters[index], e.key.user)
  }

  /** A finished table. */
  datatype Table = Table(blocks: seq<Block>, index: seq<IndexEntry>, hash: Hash, hasFilter: bool,
                         filters: seq<BlockFilter>)

  ghost predicate TableValid(t: Table) {
    && BlocksValid(t.blocks) && |t.index| == |t.blocks|
    && (forall i, j :: 0 <= i && j == i + 1 < |t.blocks| ==> Indexed(t.blocks[i], t.blocks[j], t.index[i]))
    && (t.blocks != [] ==> var last := |t.blocks| - 1;
          t.blocks[last].entries != [] && t.index[last].handle == t.blocks[last].handle
          && PackedAtOrBefore(LastKey(t.blocks[last]), t.index[last].key))
    && (t.hasFilter ==> forall i :: 0 <= i < |t.blocks| ==> FilterAt(t.hash, t.filters, t.blocks[i]))
  }

  ghost predicate InBlocks(blocks: seq<Block>, e: Entry) {
    exists i :: 0 <= i < |blocks| && e in blocks[i].entries
  }

  /** The first entry at or after a key. */
  ghost predicate IsFirst(blocks: seq<Block>, k: PackedKey, e: Entry) {
    && InBlocks(blocks, e) && PackedAtOrBefore(k, e.key)
    && forall e' :: InBlocks(blocks, e') && PackedAtOrBefore(k, e'.key) ==> PackedAtOrBefore(e.key, e'.key)
  }

  lemma {:induction false} BlocksAscend(blocks: seq<Block>, i: nat, j: nat)
    requires BlocksValid(blocks) && i < j < |blocks|
    ensures Follows(blocks[i], blocks[j])
  {
    assert Follows(blocks[j - 1], blocks[j]);
    if i < j - 1 {
      BlocksAscend(blocks, i, j - 1);
      var a, b := blocks[j - 1].entries[0].key, LastKey(blocks[j - 1]);
      assert PackedAtOrBefore(a, b);
      if a != b {
        BeforeIsTransitive(LastKey(blocks[i]), a, b);
      }
      BeforeIsTransitive(LastKey(blocks[i]), b, blocks[j].entries[0].key);
    }
  }

  lemma AtOrBeforeTransitive(a: PackedKey, b: PackedKey, c: PackedKey)
    requires PackedAtOrBefore(a, b) && PackedAtOrBefore(b, c)
    ensures PackedAtOrBefore(a, c)
  {
    if PackedBefore(a, b) && PackedBefore(b, c) {
      BeforeIsTransitive(a, b, c);
    }
  }

  /** Where the entries of a block lie. */
  lemma InBlockRange(blocks: seq<Block>, i: nat, e: Entry)
    requires BlocksValid(blocks) && i < |blocks| && e in blocks[i].entries
    ensures blocks[i].entries != [] && PackedAtOrBefore(blocks[i].entries[0].key, e.key)
    ensures PackedAtOrBefore(e.key, LastKey(blocks[i]))
  {
    var q :| 0 <= q < |blocks[i].entries| && blocks[i].entries[q] == e;
    assert Increasing(blocks[i].entries);
  }

  // ----- lookup -----

  /** `Seek` of an iterator over the index block. */
  method SeekIndex(index: seq<IndexEntry>, k: PackedKey) returns (i: nat)
    ensures i <= |index| && (i < |index| ==> PackedAtOrBefore(k, index[i].key))
    ensures forall j :: 0 <= j < i ==> PackedBefore(index[j].key, k)
  {
    i := 0;
    while i < |index| && !PackedAtOrBefore(k, index[i].key)
      invariant i <= |index| && forall j :: 0 <= j < i ==> PackedBefore(index[j].key, k)
    {
      BeforeIsTotal(k, index[i].key);
      i := i + 1;
    }
  }

  /** `Seek` of an iterator over a data block. */
  method SeekBlock(entries: seq<Entry>, k: PackedKey) returns (q: nat)
    ensures q <= |entries| && (q < |entries| ==> PackedAtOrBefore(k, entries[q].key))
    ensures forall j :: 0 <= j < q ==> PackedBefore(entries[j].key, k)
  {
    q := 0;
    while q < |entries| && !PackedAtOrBefore(k, entries[q].key)
      invariant q <= |entries| && forall j :: 0 <= j < q ==> PackedBefore(entries[j].key, k)
    {
      BeforeIsTotal(k, entries[q].key);
      q := q + 1;
    }
  }

  /** The last key of a block is at or before its index key. */
  lemma IndexKeyIsAfter(t: Table, i: nat)
    requires TableValid(t) && i < |t.blocks|
    ensures t.blocks[i].entries != [] && PackedAtOrBefore(LastKey(t.blocks[i]), t.index[i].key)
    ensures t.index[i].handle == t.blocks[i].handle
  {
    if i + 1 < |t.blocks| {
      assert Indexed(t.blocks[i], t.blocks[i + 1], t.index[i]) && Follows(t.blocks[i], t.blocks[i + 1]);
      SeparatorIsSafe(LastKey(t.blocks[i]), t.index[i].key, t.blocks[i + 1].entries[0].key, t.index[i].key);
    }
  }

  /** Entries of the blocks before the one that the index leads to are before the key. */
  lemma EarlierBlocks(t: Table, k: PackedKey, i: nat, b: nat, e: Entry)
    requires TableValid(t) && b < i <= |t.blocks| && PackedBefore(t.index[b].key, k) && e in t.blocks[b].entries
    ensures !PackedAtOrBefore(k, e.key)
  {
    IndexKeyIsAfter(t, b);
    InBlockRange(t.blocks, b, e);
    AtOrBeforeTransitive(e.key, LastKey(t.blocks[b]), t.index[b].key);
    if e.key != t.index[b].key {
      BeforeIsTransitive(e.key, t.index[b].key, k);
    }
    BeforeIsTotal(e.key, k);
  }

  /** When the block that the index leads to has nothing at or after the key, then the first entry that is has another
      user key. */
  lemma NextBlockIsAnotherUser(t: Table, k: PackedKey, i: nat, e: Entry)
    requires TableValid(t) && i < |t.blocks| && PackedAtOrBefore(k, t.index[i].key)
    requires forall j :: 0 <= j < i ==> PackedBefore(t.index[j].key, k)
    requires IsFirst(t.blocks, k, e) && e !in t.blocks[i].entries
    ensures e.key.user != k.user
  {
    hide PackedBefore, Increasing, Separates, FilterAt;
    var b :| 0 <= b < |t.blocks| && e in t.blocks[b].entries;
    if b < i {
      EarlierBlocks(t, k, i, b, e);
    }
    BlocksAscend(t.blocks, i, i + 1);
    assert Indexed(t.blocks[i], t.blocks[i + 1], t.index[i]);
    var last, first := t.blocks[i].entries[|t.blocks[i].entries| - 1], t.blocks[i + 1].entries[0];
    assert InBlocks(t.blocks, last) && InBlocks(t.blocks, first);
    InBlockRange(t.blocks, b, e);
    BlocksAscend(t.blocks, i, b);
    assert PackedBefore(last.key, e.key) by {
      if t.blocks[b].entries[0].key != e.key {
        BeforeIsTransitive(last.key, t.blocks[b].entries[0].key, e.key);
      }
    }
    BeforeIsTotal(last.key, e.key);
    BeforeIsTotal(k, last.key);
    assert PackedBefore(last.key, k);
    SeparatorIsSafe(last.key, t.index[i].key, first.key, k);
    AtOrBeforeTransitive(k, t.index[i].key, first.key);
    assert PackedAtOrBefore(e.key, first.key);
    if i + 1 < b {
      BlocksAscend(t.blocks, i + 1, b);
      InBlockRange(t.blocks, i + 1, first);
      assert PackedBefore(first.key, e.key) by {
        assert PackedAtOrBefore(first.key, LastKey(t.blocks[i + 1]));
        LessOrEqualThenBefore(first.key, LastKey(t.blocks[i + 1]), t.blocks[b].entries[0].key);
        LessOrEqualThenBefore2(first.key, t.blocks[b].entries[0].key, e.key);
      }
      BeforeIsTotal(first.key, e.key);
    }
    BeforeIsTotal(first.key, e.key);
  }

  lemma LessOrEqualThenBefore(a: PackedKey, b: PackedKey, c: PackedKey)
    requires PackedAtOrBefore(a, b) && PackedBefore(b, c)
    ensures PackedBefore(a, c)
  {
    if a != b {
      BeforeIsTransitive(a, b, c);
    }
  }

  lemma LessOrEqualThenBefore2(a: PackedKey, b: PackedKey, c: PackedKey)
    requires PackedBefore(a, b) && PackedAtOrBefore(b, c)
    ensures PackedBefore(a, c)
  {
    if b != c {
      BeforeIsTransitive(a, b, c);
    }
  }

  /** `Table::InternalGet`: the entry that is handed to the caller, if any.  One block at most is read.  As far as the
      user key of the lookup goes, the answer is the first entry at or after the key in the whole table. */
  method InternalGet(t: Table, k: PackedKey) returns (r: Option<Entry>)
    requires TableValid(t)
    ensures r.Some? && r.value.key.user == k.user ==> IsFirst(t.blocks, k, r.value)
    ensures forall e :: IsFirst(t.blocks, k, e) && e.key.user == k.user ==> r == Some(e)
  {
    hide PackedBefore, TableValid, BlocksValid;
    var i := SeekIndex(t.index, k);
    IndexIsAsLong(t);
    if i == |t.index| {
      NothingAfter(t, k);
      return None;
    }
    IndexKeyIsAfter(t, i);
    forall e | IsFirst(t.blocks, k, e) && e.key.user == k.user ensures e in t.blocks[i].entries {
      if e !in t.blocks[i].entries {
        NextBlockIsAnotherUser(t, k, i, e);
      }
    }
    if t.hasFilter {
      var may := BlockMayMatch(t.hash, t.filters, t.index[i].handle.offset, k.user);
      if !may {
        NoMatchNoUser(t, i, k.user);
        return None;
      }
    }
    var q := SeekBlock(t.blocks[i].entries, k);
    FirstInBlock(t, k, i, q);
    if q == |t.blocks[i].entries| {
      return None;
    }
    return Some(t.blocks[i].entries[q]);
  }

  lemma IndexIsAsLong(t: Table)
    requires TableValid(t)
    ensures |t.index| == |t.blocks|
  {
  }

  lemma NothingAfter(t: Table, k: PackedKey)
    requires TableValid(t) && forall j :: 0 <= j < |t.index| ==> PackedBefore(t.index[j].key, k)
    ensures forall e :: !IsFirst(t.blocks, k, e)
  {
    forall e ensures !IsFirst(t.blocks, k, e) {
      if IsFirst(t.blocks, k, e) {
        var b :| 0 <= b < |t.blocks| && e in t.blocks[b].entries;
        EarlierBlocks(t, k, |t.blocks|, b, e);
      }
    }
  }

  /** A filter without a match: no entry of the block has the user key. */
  lemma NoMatchNoUser(t: Table, i: nat, user: ByteKey)
    requires TableValid(t) && t.hasFilter && i < |t.blocks|
    requires var index := t.blocks[i].handle.offset / FILTER_BASE;
             index < |t.filters| && !Covers(t.hash, t.filters[index], user)
    ensures forall e :: e in t.blocks[i].entries ==> e.key.user != user
  {
    assert FilterAt(t.hash, t.filters, t.blocks[i]);
  }

  /** The first entry at or after the key within the block is the first in the table. */
  lemma FirstInBlock(t: Table, k: PackedKey, i: nat, q: nat)
    requires TableValid(t) && i < |t.blocks| && q <= |t.blocks[i].entries|
    requires forall j :: 0 <= j < i ==> PackedBefore(t.index[j].key, k)
    requires forall j :: 0 <= j < q ==> PackedBefore(t.blocks[i].entries[j].key, k)
    requires q < |t.blocks[i].entries| ==> PackedAtOrBefore(k, t.blocks[i].entries[q].key)
    ensures q < |t.blocks[i].entries| ==> IsFirst(t.blocks, k, t.blocks[i].entries[q])
    ensures forall e :: IsFirst(t.blocks, k, e) && e in t.blocks[i].entries ==>
              q < |t.blocks[i].entries| && e == t.blocks[i].entries[q]
  {
    var entries := t.blocks[i].entries;
    assert Increasing(entries);
    forall e' | InBlocks(t.blocks, e') && PackedAtOrBefore(k, e'.key) && q < |entries|
      ensures PackedAtOrBefore(entries[q].key, e'.key)
    {
      var b :| 0 <= b < |t.blocks| && e' in t.blocks[b].entries;
      if b < i {
        EarlierBlocks(t, k, i, b, e');
      } else if b == i {
        var p :| 0 <= p < |entries| && entries[p] == e';
        if p < q {
          BeforeIsTotal(e'.key, k);
        }
      } else {
        BlocksAscend(t.blocks, i, b);
        InBlockRange(t.blocks, b, e');
        InBlockRange(t.blocks, i, entries[q]);
        AtOrBeforeTransitive(entries[q].key, LastKey(t.blocks[i]), t.blocks[b].entries[0].key);
        AtOrBeforeTransitive(entries[q].key, t.blocks[b].entries[0].key, e'.key);
      }
    }
    forall e | IsFirst(t.blocks, k, e) && e in entries ensures q < |entries| && e == entries[q] {
      var p :| 0 <= p < |entries| && entries[p] == e;
      if p < q {
        BeforeIsTotal(e.key, k);
      } else if p > q {
        assert InBlocks(t.blocks, entries[q]);
        BeforeIsTotal(entries[q].key, e.key);
      }
    }
  }
}
