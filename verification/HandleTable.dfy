/** The hash table of the cache (`HandleTable` in util/cache.cc).  A bucket is the list that its `next_hash` pointers
link. */
module HandleTables {
  import opened Common

  type Key = string

  /** What the table needs to know of an `LRUHandle`, which is identified by a number. */
  datatype Node = Node(id: nat, key: Key, hash: nat)

  predicate SameSlot(n: Node, key: Key, hash: nat) {
    n.hash == hash && n.key == key
  }

  /** A table length is a power of two, so that masking a hash takes it modulo the length. */
  predicate IsLength(n: nat) {
    n == 4 || (n > 4 && n % 2 == 0 && IsLength(n / 2))
  }

  ghost predicate BucketValid(bucket: seq<Node>, i: nat, length: nat)
    requires length > 0
  {
    && (forall a :: 0 <= a < |bucket| ==> bucket[a].hash % length == i)
    && (forall a, b :: 0 <= a < b < |bucket| ==> !SameSlot(bucket[a], bucket[b].key, bucket[b].hash))
  }

  ghost predicate BucketsValid(list: seq<seq<Node>>) {
    |list| > 0 && forall i :: 0 <= i < |list| ==> BucketValid(list[i], i, |list|)
  }

  ghost function NodesIn(list: seq<seq<Node>>): set<Node> {
    set i, a | 0 <= i < |list| && 0 <= a < |list[i]| :: list[i][a]
  }

  function Total(list: seq<seq<Node>>): nat {
    if list == [] then 0 else Total(list[..|list| - 1]) + |list[|list| - 1]|
  }

  /** The table maps a key and hash to at most one node. */
  ghost predicate UniqueSlots(nodes: set<Node>) {
    forall n, m :: n in nodes && m in nodes && SameSlot(n, m.key, m.hash) ==> n == m
  }

  lemma BucketsAreUnique(list: seq<seq<Node>>)
    requires BucketsValid(list)
    ensures UniqueSlots(NodesIn(list))
  {
    forall n, m | n in NodesIn(list) && m in NodesIn(list) && SameSlot(n, m.key, m.hash) ensures n == m {
      var i, a :| 0 <= i < |list| && 0 <= a < |list[i]| && n == list[i][a];
      var j, b :| 0 <= j < |list| && 0 <= b < |list[j]| && m == list[j][b];
      assert BucketValid(list[i], i, |list|) && BucketValid(list[j], j, |list|);
    }
  }

  /** A node of some slot is in that slot's bucket only. */
  lemma OnlyInItsBucket(list: seq<seq<Node>>, n: Node)
    requires BucketsValid(list) && n in NodesIn(list)
    ensures n in list[n.hash % |list|]
  {
    var i, a :| 0 <= i < |list| && 0 <= a < |list[i]| && n == list[i][a];
    assert BucketValid(list[i], i, |list|);
  }

  lemma {:induction false} TotalAfterUpdate(list: seq<seq<Node>>, i: nat, bucket: seq<Node>)
    requires i < |list|
    ensures Total(list[i := bucket]) == Total(list) - |list[i]| + |bucket|
  {
    var last := |list| - 1;
    if i < last {
      assert list[i := bucket][..last] == list[..last][i := bucket];
      TotalAfterUpdate(list[..last], i, bucket);
    } else {
      assert list[i := bucket][..last] == list[..last];
    }
  }

  /** Replacing one bucket. */
  lemma NodesAfterUpdate(list: seq<seq<Node>>, i: nat, bucket: seq<Node>)
    requires BucketsValid(list) && i < |list|
    ensures forall n :: n in NodesIn(list[i := bucket]) <==> n in bucket || (n in NodesIn(list) && n.hash % |list| != i)
  {
    var list' := list[i := bucket];
    forall n | n in bucket ensures n in NodesIn(list') {
      var a :| 0 <= a < |bucket| && bucket[a] == n;
      assert list'[i][a] == n;
    }
    forall n | n in NodesIn(list) && n.hash % |list| != i ensures n in NodesIn(list') {
      var j, a :| 0 <= j < |list| && 0 <= a < |list[j]| && n == list[j][a];
      assert BucketValid(list[j], j, |list|);
      assert list'[j][a] == n;
    }
    forall n | n in NodesIn(list') && n !in bucket ensures n in NodesIn(list) && n.hash % |list| != i {
      var j, a :| 0 <= j < |list'| && 0 <= a < |list'[j]| && n == list'[j][a];
      assert list[j][a] == n && BucketValid(list[j], j, |list|);
    }
  }

  lemma UpdatedIsValid(list: seq<seq<Node>>, i: nat, bucket: seq<Node>)
    requires BucketsValid(list) && i < |list| && BucketValid(bucket, i, |list|)
    ensures BucketsValid(list[i := bucket])
  {
  }

  lemma BucketNodes(list: seq<seq<Node>>, i: nat)
    requires BucketsValid(list) && i < |list|
    ensures forall n :: n in list[i] <==> n in NodesIn(list) && n.hash % |list| == i
  {
    forall n | n in list[i] ensures n in NodesIn(list) && n.hash % |list| == i {
      var a :| 0 <= a < |list[i]| && list[i][a] == n;
      assert BucketValid(list[i], i, |list|);
    }
    forall n | n in NodesIn(list) && n.hash % |list| == i ensures n in list[i] {
      OnlyInItsBucket(list, n);
    }
  }

  ghost function Without(nodes: set<Node>, n: Option<Node>): set<Node> {
    if n.Some? then nodes - {n.value} else nodes
  }

  /** `*ptr = h`, where `ptr` is the slot of the key and hash of `h`. */
  function PutAt(bucket: seq<Node>, j: nat, h: Node): seq<Node>
    requires j <= |bucket|
  {
    bucket[..j] + [h] + (if j < |bucket| then bucket[j + 1..] else [])
  }

  function At(bucket: seq<Node>, j: nat): Option<Node> {
    if j < |bucket| then Some(bucket[j]) else None
  }

  lemma PutInBucket(list: seq<seq<Node>>, i: nat, j: nat, h: Node)
    requires BucketsValid(list) && i < |list| && i == h.hash % |list| && j <= |list[i]|
    requires j < |list[i]| ==> SameSlot(list[i][j], h.key, h.hash)
    requires j == |list[i]| ==> forall n :: n in NodesIn(list) ==> !SameSlot(n, h.key, h.hash)
    ensures var list' := list[i := PutAt(list[i], j, h)];
            && BucketsValid(list') && NodesIn(list') == Without(NodesIn(list), At(list[i], j)) + {h}
            && Total(list') == Total(list) + (if j < |list[i]| then 0 else 1)
  {
    hide NodesIn, Total;
    var bucket, bucket' := list[i], PutAt(list[i], j, h);
    NodesAfterUpdate(list, i, bucket');
    BucketNodes(list, i);
    TotalAfterUpdate(list, i, bucket');
    assert BucketValid(bucket, i, |list|);
    forall n ensures n in bucket' <==> n == h || (n in bucket && At(bucket, j) != Some(n)) {
      PutAtHas(bucket, j, h, n);
    }
    UpdatedIsValid(list, i, bucket');
  }

  lemma PutAtHas(bucket: seq<Node>, j: nat, h: Node, n: Node)
    requires j <= |bucket| && forall a, b :: 0 <= a < b < |bucket| ==> bucket[a] != bucket[b]
    ensures n in PutAt(bucket, j, h) <==> n == h || (n in bucket && At(bucket, j) != Some(n))
  {
    if j < |bucket| {
      assert bucket == bucket[..j] + [bucket[j]] + bucket[j + 1..];
    } else {
      assert bucket == bucket[..j];
    }
  }

  lemma TakeFromBucket(list: seq<seq<Node>>, i: nat, j: nat)
    requires BucketsValid(list) && i < |list| && j < |list[i]|
    ensures var list' := list[i := list[i][..j] + list[i][j + 1..]];
            && BucketsValid(list') && NodesIn(list') == NodesIn(list) - {list[i][j]} && Total(list') == Total(list) - 1
  {
    hide NodesIn, Total;
    var bucket, bucket' := list[i], list[i][..j] + list[i][j + 1..];
    NodesAfterUpdate(list, i, bucket');
    BucketNodes(list, i);
    TotalAfterUpdate(list, i, bucket');
    assert BucketValid(bucket, i, |list|);
    assert bucket == bucket[..j] + [bucket[j]] + bucket[j + 1..];
    assert bucket[j] !in bucket[..j] && bucket[j] !in bucket[j + 1..];
    forall n ensures n in bucket' <==> n in bucket && n != bucket[j] {
    }
    UpdatedIsValid(list, i, bucket');
  }

  /** The nodes that `Resize` has moved when it stands at node `j` of bucket `i`. */
  ghost function Moved(list: seq<seq<Node>>, i: nat, j: nat): set<Node> {
    set k, a | 0 <= k < |list| && 0 <= a < |list[k]| && (k < i || (k == i && a < j)) :: list[k][a]
  }

  lemma MoveOne(list: seq<seq<Node>>, i: nat, j: nat, newList: seq<seq<Node>>)
    requires BucketsValid(list) && BucketsValid(newList) && i < |list| && j < |list[i]|
    requires NodesIn(newList) == Moved(list, i, j)
    ensures var n := list[i][j]; var b := n.hash % |newList|; var newList' := newList[b := [n] + newList[b]];
            && BucketsValid(newList') && NodesIn(newList') == Moved(list, i, j + 1)
            && Total(newList') == Total(newList) + 1
  {
    hide NodesIn, Total;
    var n := list[i][j];
    var b := n.hash % |newList|;
    assert BucketValid(list[i], i, |list|);
    forall m | m in Moved(list, i, j) ensures !SameSlot(m, n.key, n.hash) {
      var k, a :| 0 <= k < |list| && 0 <= a < |list[k]| && (k < i || (k == i && a < j)) && m == list[k][a];
      assert BucketValid(list[k], k, |list|);
    }
    assert Moved(list, i, j + 1) == Moved(list, i, j) + {n};
    var bucket' := [n] + newList[b];
    BucketNodes(newList, b);
    NodesAfterUpdate(newList, b, bucket');
    TotalAfterUpdate(newList, b, bucket');
    assert BucketValid(newList[b], b, |newList|);
    UpdatedIsValid(newList, b, bucket');
  }

  lemma NextBucket(list: seq<seq<Node>>, i: nat)
    requires i < |list|
    ensures Moved(list, i, |list[i]|) == Moved(list, i + 1, 0)
    ensures Total(list[..i + 1]) == Total(list[..i]) + |list[i]|
  {
    assert list[..i + 1][..i] == list[..i];
  }

  /** The length that `Resize` chooses. */
  method LengthFor(elems: nat) returns (newLength: nat)
    ensures IsLength(newLength) && elems <= newLength && newLength > 0
  {
    newLength := 4;
    while newLength < elems
      invariant IsLength(newLength) && newLength > 0
    {
      LengthDoubles(newLength);
      newLength := newLength * 2;
    }
  }

  lemma LengthDoubles(n: nat)
    requires IsLength(n)
    ensures IsLength(n * 2)
  {
    assert n * 2 / 2 == n && n * 2 % 2 == 0;
  }

  /** The loops of `Resize`: every node moves to its bucket in a table of another length. */
  method Rehashed(list: seq<seq<Node>>, newLength: nat) returns (newList: seq<seq<Node>>)
    requires (list != [] ==> BucketsValid(list)) && newLength > 0
    ensures |newList| == newLength && BucketsValid(newList)
    ensures NodesIn(newList) == NodesIn(list) && Total(newList) == Total(list)
  {
    hide NodesIn, BucketsValid, Total, Moved;
    newList := seq(newLength, _ => []);
    EmptyTable(newLength, newList, list);
    for i := 0 to |list|
      invariant |newList| == newLength && BucketsValid(newList)
      invariant NodesIn(newList) == Moved(list, i, 0) && Total(newList) == Total(list[..i])
    {
      for j := 0 to |list[i]|
        invariant |newList| == newLength && BucketsValid(newList)
        invariant NodesIn(newList) == Moved(list, i, j) && Total(newList) == Total(list[..i]) + j
      {
        var h := list[i][j];
        var b := h.hash % newLength;
        MoveOne(list, i, j, newList);
        newList := newList[b := [h] + newList[b]];
      }
      NextBucket(list, i);
    }
    AllMoved(list);
    assert list[..|list|] == list;
  }

  class HandleTable {
    var length: nat
    var elems: nat
    var list: seq<seq<Node>>

    ghost predicate Valid()
      reads this
    {
      && |list| == length && IsLength(length) && BucketsValid(list) && elems == Total(list)
      && elems <= length
    }

    ghost function Contents(): set<Node>
      reads this
    {
      NodesIn(list)
    }

    /** The slot for a key and hash: the index of its node in the bucket, or the end of the bucket. */
    method FindPointer(key: Key, hash: nat) returns (i: nat, j: nat)
      requires |list| == length > 0 && BucketsValid(list)
      ensures i == hash % length && j <= |list[i]|
      ensures forall a :: 0 <= a < j ==> !SameSlot(list[i][a], key, hash)
      ensures j < |list[i]| ==> SameSlot(list[i][j], key, hash)
      ensures j == |list[i]| ==> forall n :: n in Contents() ==> !SameSlot(n, key, hash)
    {
      i, j := hash % length, 0;
      while j < |list[i]| && (list[i][j].hash != hash || key != list[i][j].key)
        invariant j <= |list[i]| && forall a :: 0 <= a < j ==> !SameSlot(list[i][a], key, hash)
      {
        j := j + 1;
      }
      if j == |list[i]| {
        forall n | n in Contents() ensures !SameSlot(n, key, hash) {
          OnlyInItsBucket(list, n);
        }
      }
    }

    method Lookup(key: Key, hash: nat) returns (r: Option<Node>)
      requires Valid()
      ensures match r
              case Some(n) => n in Contents() && SameSlot(n, key, hash)
              case None => forall n :: n in Contents() ==> !SameSlot(n, key, hash)
    {
      var i, j := FindPointer(key, hash);
      if j == |list[i]| {
        return None;
      }
      assert list[i][j] in Contents();
      return Some(list[i][j]);
    }

    constructor ()
      ensures Valid() && Contents() == {}
    {
      length, elems, list := 0, 0, [];
      new;
      Resize();
    }

    /** Returns the node that was replaced, if any. */
    method Insert(h: Node) returns (replaced: Option<Node>)
      requires Valid()
      modifies this
      ensures Valid() && Contents() == Without(old(Contents()), replaced) + {h}
      ensures match replaced
              case Some(n) => n in old(Contents()) && SameSlot(n, h.key, h.hash)
              case None => forall n :: n in old(Contents()) ==> !SameSlot(n, h.key, h.hash)
    {
      hide NodesIn, BucketsValid, Total;
      var i, j := FindPointer(h.key, h.hash);
      replaced := At(list[i], j);
      PutInBucket(list, i, j, h);
      BucketNodesOf(list, i, j);
      list := list[i := PutAt(list[i], j, h)];
      if replaced.None? {
        elems := elems + 1;
        if elems > length {
          Resize();
        }
      }
    }

    method Remove(key: Key, hash: nat) returns (result: Option<Node>)
      requires Valid()
      modifies this
      ensures Valid() && Contents() == Without(old(Contents()), result)
      ensures match result
              case Some(n) => n in old(Contents()) && SameSlot(n, key, hash)
              case None => forall n :: n in old(Contents()) ==> !SameSlot(n, key, hash)
    {
      hide NodesIn, BucketsValid, Total;
      var i, j := FindPointer(key, hash);
      result := At(list[i], j);
      if result.Some? {
        TakeFromBucket(list, i, j);
        BucketNodesOf(list, i, j);
        list := list[i := list[i][..j] + list[i][j + 1..]];
        elems := elems - 1;
      }
    }

    /** Makes room for one node to a bucket on average; the contents stay. */
    method Resize()
      requires |list| == length && elems == Total(list) && (length > 0 ==> BucketsValid(list))
      modifies this
      ensures Valid() && Contents() == old(Contents())
    {
      hide NodesIn, BucketsValid, Total, IsLength;
      var newLength := LengthFor(elems);
      list := Rehashed(list, newLength);
      length := newLength;
    }
  }

  lemma BucketNodesOf(list: seq<seq<Node>>, i: nat, j: nat)
    requires i < |list| && j <= |list[i]|
    ensures j < |list[i]| ==> list[i][j] in NodesIn(list)
  {
  }

  lemma EmptyTable(length: nat, list: seq<seq<Node>>, before: seq<seq<Node>>)
    requires length > 0 && list == seq(length, _ => [])
    ensures BucketsValid(list) && NodesIn(list) == {} == Moved(before, 0, 0) && Total(list) == 0 == Total(before[..0])
  {
    NoNodes(list);
  }

  lemma {:induction false} NoNodes(list: seq<seq<Node>>)
    requires forall i :: 0 <= i < |list| ==> list[i] == []
    ensures Total(list) == 0
  {
    if list != [] {
      NoNodes(list[..|list| - 1]);
    }
  }

  lemma AllMoved(list: seq<seq<Node>>)
    ensures Moved(list, |list|, 0) == NodesIn(list)
  {
  }
}
