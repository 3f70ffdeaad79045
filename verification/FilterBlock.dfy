/** Filters for the blocks of a table (table/filter_block.cc): one filter for every 2 KB of the file. */
module FilterBlocks {
  import opened Common
  import opened Separators
  import opened Bloom

  const FILTER_BASE := 2048

  /** A filter of no keys takes no bytes. */
  datatype BlockFilter = NoKeys | Keys(filter: Filter)

  /** A key that has gone into a filter matches it. */
  ghost predicate Covers(hash: Hash, f: BlockFilter, user: ByteKey) {
    f.Keys? && |f.filter.bits| >= 8 && Matches(hash, user, f.filter)
  }

  /** The filter at `index` covers the key, or will when it is generated from the keys that wait. */
  ghost predicate WillCover(hash: Hash, filters: seq<BlockFilter>, keys: seq<ByteKey>, index: nat, user: ByteKey) {
    if index < |filters| then Covers(hash, filters[index], user) else index == |filters| && user in keys
  }

  class FilterBlockBuilder {
    const hash: Hash
    const bitsPerKey: nat
    const probes: nat
    /** The user keys since the last filter. */
    var keys: seq<ByteKey>
    var filters: seq<BlockFilter>

    ghost predicate Valid() {
      1 <= probes <= 30
    }

    constructor (hash: Hash, bitsPerKey: nat, probes: nat)
      requires 1 <= probes <= 30
      ensures Valid() && keys == [] && filters == [] && this.hash == hash
    {
      this.hash, this.bitsPerKey, this.probes := hash, bitsPerKey, probes;
      keys, filters := [], [];
    }

    method GenerateFilter()
      requires Valid()
      modifies this
      ensures keys == [] && |filters| == |old(filters)| + 1 && filters[..|old(filters)|] == old(filters)
      ensures forall user :: user in old(keys) ==> Covers(hash, filters[|old(filters)|], user)
    {
      if keys == [] {
        filters := filters + [NoKeys];
        return;
      }
      var f := CreateFilter(hash, keys, bitsPerKey, probes);
      filters := filters + [Keys(f)];
      keys := [];
    }

    /** The next block starts at this offset; what is or will be covered stays so. */
    method StartBlock(blockOffset: nat)
      requires Valid() && blockOffset / FILTER_BASE >= |filters|
      modifies this
      ensures |filters| == blockOffset / 2048 && IsPrefix(old(filters), filters)
      ensures |filters| == |old(filters)| ==> keys == old(keys)
      ensures |filters| > |old(filters)| ==> keys == [] && forall user :: user in old(keys) ==>
                Covers(hash, filters[|old(filters)|], user)
    {
      var filterIndex := blockOffset / FILTER_BASE;
      while filterIndex > |filters|
        invariant |old(filters)| <= |filters| <= filterIndex && IsPrefix(old(filters), filters)
        invariant |filters| == |old(filters)| ==> keys == old(keys)
        invariant |filters| > |old(filters)| ==> keys == [] && forall user :: user in old(keys) ==>
                  Covers(hash, filters[|old(filters)|], user)
        decreases filterIndex - |filters|
      {
        GenerateFilter();
      }
    }

    method AddKey(user: ByteKey)
      modifies this
      ensures keys == old(keys) + [user] && filters == old(filters)
    {
      keys := keys + [user];
    }

    method Finish()
      requires Valid()
      modifies this
      ensures IsPrefix(old(filters), filters) && keys == []
      ensures |filters| == |old(filters)| + (if old(keys) == [] then 0 else 1)
      ensures forall user :: user in old(keys) ==> Covers(hash, filters[|old(filters)|], user)
    {
      if keys != [] {
        GenerateFilter();
      }
    }
  }

  /** `FilterBlockReader::KeyMayMatch`: what is not there may match; of what is there, the filter decides. */
  method BlockMayMatch(hash: Hash, filters: seq<BlockFilter>, blockOffset: nat, user: ByteKey) returns (may: bool)
    ensures (blockOffset / FILTER_BASE < |filters| ==> Covers(hash, filters[blockOffset / FILTER_BASE], user)) ==> may
    ensures may && blockOffset / FILTER_BASE < |filters| ==>
              var f := filters[blockOffset / FILTER_BASE];
              f.Keys? && |f.filter.bits| >= 8 && (f.filter.probes > 30 || Matches(hash, user, f.filter))
  {
    hide Matches;
    var index := blockOffset / FILTER_BASE;
    if index < |filters| {
      match filters[index]
      case NoKeys => return false;
      case Keys(f) =>
        may := KeyMayMatch(hash, user, f);
        return;
    }
    return true;
  }
}
