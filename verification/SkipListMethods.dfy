/** The operations of the skip list (db/skiplist.h) as the code performs them, proved against the sorted sequence of
its keys.  They run while nothing else runs; SkipList treats what readers see while the writer is at work. */
module SkipListMethods {
  import opened SkipList

  /** The keys of the nodes of a list. */
  ghost function KeysAlong(m: Mem, list: seq<nat>): seq<Key> {
    seq(|list|, i requires 0 <= i < |list| => KeyOf(m, list[i]))
  }

  ghost predicate Ascending(keys: seq<Key>) {
    forall i, j :: 0 <= i < j < |keys| ==> keys[i] < keys[j]
  }

  /** `p` keys are below `key`; the others are not. */
  ghost predicate SplitsKeys(keys: seq<Key>, key: Key, p: nat) {
    && p <= |keys|
    && (forall j :: 0 <= j < p ==> keys[j] < key)
    && (forall j :: p <= j < |keys| ==> keys[j] >= key)
  }

  lemma HeadIsOnPath(m: Mem, list: seq<nat>, search: Search)
    ensures OnPath(m, list, search, 0)
  {
  }

  lemma KeysSplit(m: Mem, list: seq<nat>, keys: seq<Key>, key: Key, p: nat)
    requires |keys| == |list| && forall j :: 0 <= j < |list| ==> KeyOf(m, list[j]) == keys[j]
    requires SplitsKeys(keys, key, p)
    ensures Rank(m, list, key) == p
  {
    SplitIsRank(m, list, key, p);
  }

  lemma {:induction false} RankCarriesOver(m: Mem, m': Mem, list: seq<nat>, key: Key)
    requires m.keys == m'.keys
    ensures Rank(m, list, key) == Rank(m', list, key)
  {
    if list != [] {
      RankCarriesOver(m, m', list[1..], key);
    }
  }

  lemma KeysAfterInsert(m: Mem, list: seq<nat>, keys: seq<Key>, node: nat, key: Key, p: nat)
    requires |keys| == |list| && forall j :: 0 <= j < |list| ==> KeyOf(m, list[j]) == keys[j]
    requires p <= |list| && KeyOf(m, node) == key
    ensures KeysAlong(m, InsertAt(list, p, node)) == keys[..p] + [key] + keys[p..]
  {
  }

  lemma SplitIsUnique(keys: seq<Key>, key: Key, p: nat, i: nat)
    requires Ascending(keys) && SplitsKeys(keys, key, p) && i < |keys| && keys[i] == key
    ensures p == i
  {
    assert p < |keys| ==> keys[p] >= key;
  }

  class List {
    var mem: Mem
    /** The nodes of each level in order. */
    ghost var lists: seq<seq<nat>>

    ghost predicate Valid()
      reads this
    {
      Levels(mem, lists)
    }

    ghost function Keys(): (keys: seq<Key>)
      reads this
      requires Valid()
      ensures Ascending(keys)
    {
      assert IsChain(mem, 0, lists[0]);
      KeysAlong(mem, lists[0])
    }

    constructor ()
      ensures Valid() && Keys() == []
    {
      mem := Mem([0.0], [seq(MAX_HEIGHT, _ => Unset)], 1);
      lists := seq(MAX_HEIGHT, _ => []);
      new;
      for i := 0 to MAX_HEIGHT
        invariant mem.keys == [0.0] && mem.maxHeight == 1 && |mem.next| == 1 && |mem.next[0]| == MAX_HEIGHT
        invariant forall l :: 0 <= l < i ==> mem.next[0][l] == Null
        invariant lists == seq(MAX_HEIGHT, _ => [])
      {
        mem := SetNext(mem, 0, i, Null);
      }
      forall l | 0 <= l < MAX_HEIGHT ensures IsChain(mem, l, lists[l]) {
      }
    }

    /** One level down: the node stands on the path of that level too. */
    lemma Down(search: Search, x: nat, level: nat) returns (p: nat)
      requires Valid() && 0 < level < MAX_HEIGHT && OnPath(mem, lists[level], search, x)
      ensures OnPath(mem, lists[level - 1], search, x)
      ensures p <= |lists[level - 1]| && x == NodeAt(lists[level - 1], p)
    {
      assert Sublist(lists[(level - 1) + 1], lists[level - 1]);
      p := PlaceOf(lists[level - 1], x);
    }

    lemma Load(search: Search, x: nat, level: nat, p: nat)
      requires Valid() && level < MAX_HEIGHT && OnPath(mem, lists[level], search, x)
      requires p <= |lists[level]| && x == NodeAt(lists[level], p)
      ensures var list := lists[level];
              && HasLevel(mem, x, level) && mem.next[x][level] == LinkTo(list, p)
              && (p < |list| && Passes(search, KeyOf(mem, list[p])) ==> OnPath(mem, list, search, list[p]))
              && (p == |list| || !Passes(search, KeyOf(mem, list[p])) ==> Splits(mem, list, search, x, p))
    {
      assert IsChain(mem, level, lists[level]);
      LoadAt(mem, level, lists[level], search, x, p);
    }

    method FindGreaterOrEqual(key: Key, prev: array?<nat>) returns (found: Link, ghost p: nat)
      requires Valid() && (prev != null ==> prev.Length == MAX_HEIGHT)
      modifies prev
      ensures SplitsKeys(Keys(), key, p) && found == LinkTo(lists[0], p)
      ensures prev != null ==> forall l :: 0 <= l < mem.maxHeight ==> StandsBefore(mem, lists[l], key, prev[l])
    {
      hide Levels, IsChain, OnPath, Sublist;
      ListsCount(mem, lists);
      ghost var search := GreaterOrEqual(key);
      var x: nat, level: nat := 0, mem.maxHeight - 1;
      p := 0;
      HeadIsOnPath(mem, lists[level], search);
      while true
        invariant level < mem.maxHeight && OnPath(mem, lists[level], search, x)
        invariant p <= |lists[level]| && x == NodeAt(lists[level], p)
        invariant prev != null ==> forall l :: level < l < mem.maxHeight ==> StandsBefore(mem, lists[l], key, prev[l])
        decreases level, |lists[level]| - p
      {
        Load(search, x, level, p);
        var next := mem.next[x][level];
        if next.To? && KeyOf(mem, next.node) < key {
          x := next.node;
          p := p + 1;
        } else {
          assert StandsBefore(mem, lists[level], key, x);
          if prev != null {
            prev[level] := x;
          }
          if level == 0 {
            return next, p;
          }
          p := Down(search, x, level);
          level := level - 1;
        }
      }
    }

    method FindLessThan(key: Key) returns (x: nat, ghost p: nat)
      requires Valid()
      ensures SplitsKeys(Keys(), key, p) && x == NodeAt(lists[0], p)
    {
      hide Levels, IsChain, OnPath, Sublist;
      ListsCount(mem, lists);
      ghost var search := LessThan(key);
      var level: nat := mem.maxHeight - 1;
      x, p := 0, 0;
      HeadIsOnPath(mem, lists[level], search);
      while true
        invariant level < mem.maxHeight && OnPath(mem, lists[level], search, x)
        invariant p <= |lists[level]| && x == NodeAt(lists[level], p)
        decreases level, |lists[level]| - p
      {
        Load(search, x, level, p);
        var next := mem.next[x][level];
        if next == Null || KeyOf(mem, next.node) >= key {
          if level == 0 {
            return x, p;
          }
          p := Down(search, x, level);
          level := level - 1;
        } else {
          x := next.node;
          p := p + 1;
        }
      }
    }

    method FindLast() returns (x: nat)
      requires Valid()
      ensures x == NodeAt(lists[0], |lists[0]|)
    {
      hide Levels, IsChain, OnPath, Sublist;
      ListsCount(mem, lists);
      var level: nat := mem.maxHeight - 1;
      x := 0;
      ghost var p: nat := 0;
      HeadIsOnPath(mem, lists[level], Last);
      while true
        invariant level < mem.maxHeight && OnPath(mem, lists[level], Last, x)
        invariant p <= |lists[level]| && x == NodeAt(lists[level], p)
        decreases level, |lists[level]| - p
      {
        Load(Last, x, level, p);
        var next := mem.next[x][level];
        if next == Null {
          if level == 0 {
            return x;
          }
          p := Down(Last, x, level);
          level := level - 1;
        } else {
          x := next.node;
          p := p + 1;
        }
      }
    }

    method Contains(key: Key) returns (b: bool)
      requires Valid()
      ensures b <==> key in Keys()
    {
      var x, p := FindGreaterOrEqual(key, null);
      b := x.To? && KeyOf(mem, x.node) == key;
      if x.To? {
        assert Keys()[p] == KeyOf(mem, x.node);
      }
    }

    lemma NodesExist()
      requires Valid()
      ensures |Keys()| == |lists[0]|
      ensures forall j :: 0 <= j < |lists[0]| ==> lists[0][j] < |mem.keys| && KeyOf(mem, lists[0][j]) == Keys()[j]
    {
      assert IsChain(mem, 0, lists[0]);
    }

    lemma HeadStandsBeforeAll(key: Key, prev: seq<nat>, height: nat)
      requires Valid() && |prev| == MAX_HEIGHT && height <= MAX_HEIGHT
      requires forall l :: 0 <= l < mem.maxHeight ==> StandsBefore(mem, lists[l], key, prev[l])
      requires forall l :: mem.maxHeight <= l < height ==> prev[l] == 0
      ensures IsPrev(mem, lists, key, prev, 0, height)
    {
      forall l | mem.maxHeight <= l < height ensures StandsBefore(mem, lists[l], key, prev[l]) {
        assert Splits(mem, lists[l], GreaterOrEqual(key), prev[l], 0);
      }
    }

    lemma NewKeyIsAbsent(key: Key)
      requires Valid() && key !in Keys()
      ensures key !in KeysOf(mem, lists[0])
    {
      forall n | n in lists[0] ensures KeyOf(mem, n) in Keys() {
        var i :| 0 <= i < |lists[0]| && lists[0][i] == n;
        assert Keys()[i] == KeyOf(mem, n);
      }
    }

    lemma PointIsFound(key: Key, prev: seq<nat>, height: nat)
      requires Valid() && |prev| == MAX_HEIGHT && 1 <= height <= MAX_HEIGHT && key !in Keys()
      requires forall l :: 0 <= l < mem.maxHeight ==> StandsBefore(mem, lists[l], key, prev[l])
      requires forall l :: mem.maxHeight <= l < height ==> prev[l] == 0
      ensures WriterInv(mem, lists, Searched(key, height, prev))
    {
      HeadStandsBeforeAll(key, prev, height);
      NewKeyIsAbsent(key);
    }

    /** The height is the outcome of `RandomHeight`. */
    method Insert(key: Key, height: nat)
      requires Valid() && 1 <= height <= MAX_HEIGHT && key !in Keys()
      modifies this
      ensures Valid()
      ensures exists p: nat :: SplitsKeys(old(Keys()), key, p) && Keys() == old(Keys())[..p] + [key] + old(Keys())[p..]
    {
      hide Levels, IsChain, Sublist, Splits, WriterInv, SplitsKeys, Rank, KeysAlong, StandsBefore;
      ListsCount(mem, lists);
      ghost var nodes, keys := lists[0], Keys();
      NodesExist();
      var prev := new nat[MAX_HEIGHT];
      var _, p := FindGreaterOrEqual(key, prev);
      var i := mem.maxHeight;
      while i < height
        modifies prev
        invariant mem.maxHeight <= i
        invariant forall l :: 0 <= l < mem.maxHeight ==> StandsBefore(mem, lists[l], key, prev[l])
        invariant forall l :: mem.maxHeight <= l < i && l < MAX_HEIGHT ==> prev[l] == 0
      {
        prev[i] := 0;
        i := i + 1;
      }
      PointIsFound(key, prev[..], height);
      RaiseKeeps(mem, lists, key, height, prev[..]);
      if height > mem.maxHeight {
        mem := mem.(maxHeight := height);
      }
      AllocateKeeps(mem, lists, key, height, prev[..]);
      var x := |mem.keys|;
      mem := Allocate(mem, key, height);
      KeysSplit(mem, nodes, keys, key, p);
      LinkNode(x, height, prev);
      KeysAfterInsert(mem, nodes, keys, x, key, p);
    }

    /** The loop at the end of `Insert`: the node is published level by level, the lowest first. */
    method LinkNode(x: nat, height: nat, prev: array<nat>)
      requires 1 <= height <= MAX_HEIGHT && Valid() && prev.Length == MAX_HEIGHT
      requires WriterInv(mem, lists, Linking(x, height, 0, prev[..], false))
      modifies this
      ensures Valid() && mem.keys == old(mem.keys)
      ensures lists[0] == old(InsertAt(lists[0], Rank(mem, lists[0], KeyOf(mem, x)), x))
    {
      hide Levels, IsChain, Sublist, Splits, WriterInv, Rank;
      ListsCount(mem, lists);
      ghost var nodes := lists[0];
      for i := 0 to height
        modifies this
        invariant mem.keys == old(mem.keys) && |lists| == MAX_HEIGHT && Levels(mem, lists)
        invariant i < height ==> WriterInv(mem, lists, Linking(x, height, i, prev[..], false))
        invariant lists[0] == if i == 0 then nodes else old(InsertAt(lists[0], Rank(mem, lists[0], KeyOf(mem, x)), x))
      {
        PrepareKeeps(mem, lists, x, height, i, prev[..]);
        mem := SetNext(mem, x, i, mem.next[prev[i]][i]);
        PublishKeeps(mem, lists, x, height, i, prev[..]);
        RankCarriesOver(old(mem), mem, lists[i], KeyOf(mem, x));
        lists := Link1(mem, lists, i, x);
        mem := SetNext(mem, prev[i], i, To(x));
      }
    }
  }

  /** The position that a node stands for: past the end if there is none. */
  ghost predicate StandsAt(list: seq<nat>, node: Link, i: nat) {
    i <= |list| && node == LinkTo(list, i)
  }

  class Iterator {
    const list: List
    var node: Link

    /** `i` is the index in the sorted keys at which the iterator stands; |keys| when it is not valid. */
    ghost predicate At(i: nat)
      reads this, list
    {
      list.Valid() && StandsAt(list.lists[0], node, i)
    }

    constructor (list: List)
      requires list.Valid()
      ensures this.list == list && At(|list.Keys()|)
    {
      this.list := list;
      node := Null;
    }

    predicate IsValid()
      reads this
    {
      node != Null
    }

    /** The iterator stands at one place only, and `key()` is the key there. */
    lemma OnePlace(i: nat, j: nat)
      requires At(i) && At(j)
      ensures i == j && (IsValid() <==> i < |list.Keys()|)
      ensures i < |list.Keys()| ==> node.To? && KeyOf(list.mem, node.node) == list.Keys()[i]
    {
      assert IsChain(list.mem, 0, list.lists[0]);
    }

    method Next(ghost i: nat)
      requires At(i) && IsValid()
      modifies this
      ensures At(i + 1)
    {
      list.Load(Last, node.node, 0, i + 1);
      node := list.mem.next[node.node][0];
    }

    method Prev(ghost i: nat)
      requires At(i) && IsValid()
      modifies this
      ensures At(if i == 0 then |list.Keys()| else i - 1)
    {
      OnePlace(i, i);
      var x, p := list.FindLessThan(KeyOf(list.mem, node.node));
      SplitIsUnique(list.Keys(), KeyOf(list.mem, node.node), p, i);
      if x == 0 {
        assert i == 0 by {
          assert IsChain(list.mem, 0, list.lists[0]);
        }
        node := Null;
      } else {
        node := To(x);
      }
    }

    method Seek(target: Key) returns (ghost p: nat)
      requires list.Valid()
      modifies this
      ensures At(p) && SplitsKeys(list.Keys(), target, p)
    {
      node, p := list.FindGreaterOrEqual(target, null);
    }

    method SeekToFirst()
      requires list.Valid()
      modifies this
      ensures At(0)
    {
      list.Load(Last, 0, 0, 0);
      node := list.mem.next[0][0];
    }

    method SeekToLast()
      requires list.Valid()
      modifies this
      ensures At(if list.Keys() == [] then 0 else |list.Keys()| - 1)
    {
      assert IsChain(list.mem, 0, list.lists[0]);
      var x := list.FindLast();
      node := if x == 0 then Null else To(x);
    }
  }
}
