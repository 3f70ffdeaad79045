/** The skip list behind the memtable (db/skiplist.h): one writer, any number of concurrent readers.

Nodes are numbered; node 0 is the head.  Keys follow an arbitrary comparator, see InternalKeys. */
module SkipList {

  type Key = real

  const MAX_HEIGHT := 12

  /** The contents of one `next_` cell.  Cells of a fresh node are not initialised. */
  datatype Link = Unset | Null | To(node: nat)

  datatype Mem = Mem(keys: seq<Key>, next: seq<seq<Link>>, maxHeight: nat)

  ghost predicate Shape(m: Mem) {
    && 0 < |m.keys| == |m.next|
    && |m.next[0]| == MAX_HEIGHT
    && (forall n :: 0 <= n < |m.next| ==> 1 <= |m.next[n]| <= MAX_HEIGHT)
    && 1 <= m.maxHeight <= MAX_HEIGHT
  }

  /** The node before position `j` of a level. */
  function NodeAt(list: seq<nat>, j: nat): nat
    requires j <= |list|
  {
    if j == 0 then 0 else list[j - 1]
  }

  function LinkTo(list: seq<nat>, j: nat): Link {
    if j < |list| then To(list[j]) else Null
  }

  function KeyOf(m: Mem, n: nat): Key {
    if n < |m.keys| then m.keys[n] else 0.0
  }

  ghost predicate HasLevel(m: Mem, n: nat, l: nat) {
    n < |m.next| == |m.keys| && l < |m.next[n]|
  }

  /** Following the links of level `l` from the head visits `list`, in strictly ascending key order. */
  ghost predicate IsChain(m: Mem, l: nat, list: seq<nat>) {
    && (forall j :: 0 <= j < |list| ==> list[j] > 0 && HasLevel(m, list[j], l))
    && (forall j :: 0 <= j <= |list| ==>
        HasLevel(m, NodeAt(list, j), l) && m.next[NodeAt(list, j)][l] == LinkTo(list, j))
    && (forall i, j :: 0 <= i < j < |list| ==> KeyOf(m, list[i]) < KeyOf(m, list[j]))
  }

  ghost predicate Sublist(a: seq<nat>, b: seq<nat>) {
    forall n :: n in a ==> n in b
  }

  /** Every level is a sorted chain and a sublist of the level below; levels not in use are empty. */
  ghost predicate Levels(m: Mem, lists: seq<seq<nat>>) {
    && Shape(m) && |lists| == MAX_HEIGHT
    && (forall l :: 0 <= l < MAX_HEIGHT ==> IsChain(m, l, lists[l]))
    && (forall l :: 0 <= l < MAX_HEIGHT - 1 ==> Sublist(lists[l + 1], lists[l]))
    && (forall l :: m.maxHeight <= l < MAX_HEIGHT ==> lists[l] == [])
  }

  /** The three searches: `FindGreaterOrEqual`, `FindLessThan` and `FindLast`. */
  datatype Search = GreaterOrEqual(key: Key) | LessThan(key: Key) | Last

  /** The search moves on past a node with this key. */
  predicate Passes(search: Search, key: Key) {
    search.Last? || key < search.key
  }

  /** `x` stands at position `p` of the list: the search passes the nodes up to `x` and no other. */
  ghost predicate Splits(m: Mem, list: seq<nat>, search: Search, x: nat, p: nat) {
    && p <= |list| && x == NodeAt(list, p)
    && (forall j :: 0 <= j < p ==> Passes(search, KeyOf(m, list[j])))
    && (forall j :: p <= j < |list| ==> !Passes(search, KeyOf(m, list[j])))
  }

  ghost predicate OnPath(m: Mem, list: seq<nat>, search: Search, x: nat) {
    x == 0 || (x in list && Passes(search, KeyOf(m, x)))
  }

  ghost function KeysOf(m: Mem, list: seq<nat>): set<Key> {
    set n | n in list :: KeyOf(m, n)
  }

  /** One load of a search at a node on its path: the link is set, and it leads either along the level or to the
      end of the search on this level. */
  lemma LoadOnPath(m: Mem, l: nat, list: seq<nat>, search: Search, x: nat) returns (p: nat)
    requires IsChain(m, l, list) && OnPath(m, list, search, x)
    ensures p <= |list| && x == NodeAt(list, p)
    ensures HasLevel(m, x, l) && m.next[x][l] == LinkTo(list, p)
    ensures p < |list| && Passes(search, KeyOf(m, list[p])) ==> OnPath(m, list, search, list[p])
    ensures p == |list| || !Passes(search, KeyOf(m, list[p])) ==> Splits(m, list, search, x, p)
  {
    p := PlaceOf(list, x);
    LoadAt(m, l, list, search, x, p);
  }

  lemma PlaceOf(list: seq<nat>, x: nat) returns (p: nat)
    requires x == 0 || x in list
    ensures p <= |list| && x == NodeAt(list, p)
  {
    if x == 0 {
      p := 0;
    } else {
      var i :| 0 <= i < |list| && list[i] == x;
      p := i + 1;
    }
  }

  /** The same load, knowing where the node stands. */
  lemma LoadAt(m: Mem, l: nat, list: seq<nat>, search: Search, x: nat, p: nat)
    requires IsChain(m, l, list) && OnPath(m, list, search, x)
    requires p <= |list| && x == NodeAt(list, p)
    ensures HasLevel(m, x, l) && m.next[x][l] == LinkTo(list, p)
    ensures p < |list| && Passes(search, KeyOf(m, list[p])) ==> OnPath(m, list, search, list[p])
    ensures p == |list| || !Passes(search, KeyOf(m, list[p])) ==> Splits(m, list, search, x, p)
  {
    assert HasLevel(m, NodeAt(list, p), l);
    if p > 0 {
      assert list[p - 1] > 0;
    }
  }

  // ----- the steps of the writer -----

  function SetNext(m: Mem, n: nat, l: nat, link: Link): Mem
    requires n < |m.next| && l < |m.next[n]|
  {
    m.(next := m.next[n := m.next[n][l := link]])
  }

  /** `NewNode`: the links stay uninitialised. */
  function Allocate(m: Mem, key: Key, height: nat): Mem {
    m.(keys := m.keys + [key], next := m.next + [seq(height, _ => Unset)])
  }

  datatype Writer =
    | Idle
    /** The search is done. */
    | Searched(key: Key, height: nat, prev: seq<nat>)
    /** `max_height_` covers the new node. */
    | Raised(key: Key, height: nat, prev: seq<nat>)
    /** The node is linked below `level`; `ready` says that its own link on `level` is set. */
    | Linking(node: nat, height: nat, level: nat, prev: seq<nat>, ready: bool)

  /** `prev` as `FindGreaterOrEqual` fills it, and the head for levels above, on the levels the new node needs. */
  ghost predicate IsPrev(m: Mem, lists: seq<seq<nat>>, key: Key, prev: seq<nat>, from: nat, height: nat) {
    && |prev| == MAX_HEIGHT == |lists| && height <= MAX_HEIGHT
    && forall l :: from <= l < height ==> StandsBefore(m, lists[l], key, prev[l])
  }

  ghost predicate StandsBefore(m: Mem, list: seq<nat>, key: Key, x: nat) {
    exists p: nat :: Splits(m, list, GreaterOrEqual(key), x, p)
  }

  ghost predicate WriterInv(m: Mem, lists: seq<seq<nat>>, w: Writer) {
    match w
    case Idle => true
    case Searched(key, height, prev) =>
      1 <= height <= MAX_HEIGHT && IsPrev(m, lists, key, prev, 0, height) && key !in KeysOf(m, lists[0])
    case Raised(key, height, prev) =>
      1 <= height <= m.maxHeight && IsPrev(m, lists, key, prev, 0, height) && key !in KeysOf(m, lists[0])
    case Linking(node, height, level, prev, ready) =>
      && 0 < node < |m.next| && |m.next[node]| == height <= m.maxHeight <= MAX_HEIGHT && level < height
      && IsPrev(m, lists, KeyOf(m, node), prev, level, height)
      && (forall l :: 0 <= l < MAX_HEIGHT ==> (node in lists[l] <==> l < level))
      && (level > 0 || KeyOf(m, node) !in KeysOf(m, lists[0]))
      && (ready ==> HasLevel(m, prev[level], level) && m.next[node][level] == m.next[prev[level]][level])
  }

  function InsertAt(list: seq<nat>, p: nat, node: nat): seq<nat>
    requires p <= |list|
  {
    list[..p] + [node] + list[p..]
  }

  /** Publishing a node whose own link is ready inserts it into the chain of that level. */
  lemma PublishInserts(m: Mem, l: nat, list: seq<nat>, node: nat, x: nat, p: nat)
    requires IsChain(m, l, list) && Splits(m, list, GreaterOrEqual(KeyOf(m, node)), x, p)
    requires node > 0 && HasLevel(m, node, l) && node !in list && node != x
    requires m.next[node][l] == LinkTo(list, p)
    requires forall j :: 0 <= j < |list| ==> KeyOf(m, list[j]) != KeyOf(m, node)
    ensures HasLevel(m, x, l) && IsChain(SetNext(m, x, l, To(node)), l, InsertAt(list, p, node))
  {
    var m' := SetNext(m, x, l, To(node));
    var list' := InsertAt(list, p, node);
    assert HasLevel(m, NodeAt(list, p), l);
    InsertedKeys(m, l, list, node, p);
    InsertedLinks(m, l, list, node, x, p);
    hide IsChain, InsertAt, LinkTo, Splits;
    InsertedChain(m', l, list');
  }

  lemma InsertedChain(m: Mem, l: nat, list: seq<nat>)
    requires forall j :: 0 <= j < |list| ==> list[j] > 0 && HasLevel(m, list[j], l)
    requires forall j :: 0 <= j <= |list| ==>
              HasLevel(m, NodeAt(list, j), l) && m.next[NodeAt(list, j)][l] == LinkTo(list, j)
    requires forall i, j :: 0 <= i < j < |list| ==> KeyOf(m, list[i]) < KeyOf(m, list[j])
    ensures IsChain(m, l, list)
  {
  }

  lemma InsertedKeys(m: Mem, l: nat, list: seq<nat>, node: nat, p: nat)
    requires IsChain(m, l, list) && p <= |list| && node > 0 && HasLevel(m, node, l)
    requires forall j :: 0 <= j < p ==> KeyOf(m, list[j]) < KeyOf(m, node)
    requires forall j :: p <= j < |list| ==> KeyOf(m, node) < KeyOf(m, list[j])
    ensures var list' := InsertAt(list, p, node);
            && (forall j :: 0 <= j < |list'| ==> list'[j] > 0 && HasLevel(m, list'[j], l))
            && forall i, j :: 0 <= i < j < |list'| ==> KeyOf(m, list'[i]) < KeyOf(m, list'[j])
  {
    var list' := InsertAt(list, p, node);
    assert forall i :: 0 <= i < |list'| ==> list'[i] == if i < p then list[i] else if i == p then node else list[i - 1];
  }

  lemma InsertedLinks(m: Mem, l: nat, list: seq<nat>, node: nat, x: nat, p: nat)
    requires IsChain(m, l, list) && p <= |list| && x == NodeAt(list, p)
    requires node > 0 && HasLevel(m, node, l) && HasLevel(m, x, l) && node !in list && node != x
    requires m.next[node][l] == LinkTo(list, p)
    ensures var m' := SetNext(m, x, l, To(node)); var list' := InsertAt(list, p, node);
            forall j :: 0 <= j <= |list'| ==>
              HasLevel(m', NodeAt(list', j), l) && m'.next[NodeAt(list', j)][l] == LinkTo(list', j)
  {
    var m' := SetNext(m, x, l, To(node));
    var list' := InsertAt(list, p, node);
    forall j | 0 <= j <= |list'|
      ensures HasLevel(m', NodeAt(list', j), l) && m'.next[NodeAt(list', j)][l] == LinkTo(list', j)
    {
      if j < p {
        assert NodeAt(list', j) == NodeAt(list, j);
        DistinctPlaces(m, l, list, j, p);
      } else if j == p {
        assert NodeAt(list', j) == x;
      } else if j == p + 1 {
        assert NodeAt(list', j) == node;
      } else {
        assert NodeAt(list', j) == NodeAt(list, j - 1);
        DistinctPlaces(m, l, list, p, j - 1);
      }
    }
  }

  lemma DistinctPlaces(m: Mem, l: nat, list: seq<nat>, i: nat, j: nat)
    requires IsChain(m, l, list) && i < j <= |list|
    ensures NodeAt(list, i) != NodeAt(list, j)
  {
  }

  /** A store into another level, or to a node not on the chain, leaves the chain alone. */
  lemma ChainUnaffected(m: Mem, l: nat, list: seq<nat>, n: nat, k: nat, link: Link)
    requires IsChain(m, l, list) && HasLevel(m, n, k) && (k != l || (n != 0 && n !in list))
    ensures IsChain(SetNext(m, n, k, link), l, list)
  {
    var m' := SetNext(m, n, k, link);
    forall j | 0 <= j <= |list| ensures HasLevel(m', NodeAt(list, j), l)
      && m'.next[NodeAt(list, j)][l] == LinkTo(list, j)
    {
      assert HasLevel(m, NodeAt(list, j), l);
    }
  }

  lemma ChainAfterAllocate(m: Mem, l: nat, list: seq<nat>, key: Key, height: nat)
    requires IsChain(m, l, list)
    ensures IsChain(Allocate(m, key, height), l, list)
  {
    var m' := Allocate(m, key, height);
    forall j | 0 <= j <= |list| ensures HasLevel(m', NodeAt(list, j), l)
      && m'.next[NodeAt(list, j)][l] == LinkTo(list, j)
    {
      assert HasLevel(m, NodeAt(list, j), l);
    }
  }

  // ----- readers -----

  datatype Reader =
    | Resting
    /** At node `x` of `level`; `seen` are the keys in the list when the search began (proof only). */
    | Reading(search: Search, x: nat, level: nat, seen: set<Key>)
    /** `found` is the node returned, Null or the head (node 0) if there is none. */
    | Done(search: Search, found: Link, seen: set<Key>)

  /** The answer of a search on a level-0 list. */
  ghost predicate IsAnswer(m: Mem, list: seq<nat>, search: Search, found: Link) {
    exists x, p :: Splits(m, list, search, x, p) && found == if search.GreaterOrEqual? then LinkTo(list, p) else To(x)
  }

  /** An answer given at some time misses no key that was in the list when the search began. */
  ghost predicate MissesNothing(m: Mem, list: seq<nat>, search: Search, found: Link, seen: set<Key>) {
    if search.GreaterOrEqual? then
      && (found.To? ==> found.node in list && KeyOf(m, found.node) >= search.key)
      && (forall k :: k in seen && k >= search.key ==> found.To? && KeyOf(m, found.node) <= k)
    else
      && found.To? && OnPath(m, list, search, found.node)
      && (forall k :: k in seen && Passes(search, k) ==> found.node != 0 && k <= KeyOf(m, found.node))
  }

  ghost predicate ReaderInv(m: Mem, lists: seq<seq<nat>>, r: Reader) {
    match r
    case Resting => true
    case Reading(search, x, level, seen) =>
      |lists| == MAX_HEIGHT && level < MAX_HEIGHT && OnPath(m, lists[level], search, x) && seen <= KeysOf(m, lists[0])
    case Done(search, found, seen) =>
      |lists| == MAX_HEIGHT && found != Unset && MissesNothing(m, lists[0], search, found, seen)
  }

  lemma AnswerMissesNothing(m: Mem, list: seq<nat>, search: Search, found: Link, seen: set<Key>)
    requires IsChain(m, 0, list) && IsAnswer(m, list, search, found) && seen <= KeysOf(m, list)
    ensures found != Unset && MissesNothing(m, list, search, found, seen)
  {
    var x, p :| Splits(m, list, search, x, p) && found == if search.GreaterOrEqual? then LinkTo(list, p) else To(x);
    forall k | k in seen ensures exists j :: 0 <= j < |list| && KeyOf(m, list[j]) == k {
      var n :| n in list && KeyOf(m, n) == k;
    }
  }

  // ----- each step of the writer keeps the levels -----

  /** How many leading nodes of the list have keys below `key`. */
  function Rank(m: Mem, list: seq<nat>, key: Key): (r: nat)
    ensures r <= |list|
  {
    if list == [] || KeyOf(m, list[0]) >= key then 0 else 1 + Rank(m, list[1..], key)
  }

  lemma {:induction false} SplitIsRank(m: Mem, list: seq<nat>, key: Key, p: nat)
    requires p <= |list|
    requires forall j :: 0 <= j < p ==> KeyOf(m, list[j]) < key
    requires forall j :: p <= j < |list| ==> KeyOf(m, list[j]) >= key
    ensures Rank(m, list, key) == p
  {
    if p > 0 {
      SplitIsRank(m, list[1..], key, p - 1);
    }
  }

  /** The lists once `node` is reachable on `level`. */
  function Link1(m: Mem, lists: seq<seq<nat>>, level: nat, node: nat): seq<seq<nat>>
    requires level < |lists|
  {
    lists[level := InsertAt(lists[level], Rank(m, lists[level], KeyOf(m, node)), node)]
  }

  lemma {:induction false} LowestHasAll(m: Mem, lists: seq<seq<nat>>, l: nat, n: nat)
    requires Levels(m, lists) && l < MAX_HEIGHT && n in lists[l]
    ensures n in lists[0]
  {
    if l > 0 {
      assert Sublist(lists[(l - 1) + 1], lists[l - 1]);
      LowestHasAll(m, lists, l - 1, n);
    }
  }

  lemma RaiseKeeps(m: Mem, lists: seq<seq<nat>>, key: Key, height: nat, prev: seq<nat>)
    requires Levels(m, lists) && WriterInv(m, lists, Searched(key, height, prev))
    ensures var m' := m.(maxHeight := if height > m.maxHeight then height else m.maxHeight);
            Levels(m', lists) && WriterInv(m', lists, Raised(key, height, prev))
  {
    var m' := m.(maxHeight := if height > m.maxHeight then height else m.maxHeight);
    forall l | 0 <= l < MAX_HEIGHT ensures IsChain(m', l, lists[l]) {
      assert IsChain(m, l, lists[l]);
    }
    PrevCarriesOver(m, m', lists, lists, key, prev, 0, height);
    assert KeysOf(m', lists[0]) == KeysOf(m, lists[0]);
  }

  lemma SplitsCarriesOver(m: Mem, m': Mem, list: seq<nat>, search: Search, x: nat, p: nat)
    requires Splits(m, list, search, x, p)
    requires forall j :: 0 <= j < |list| ==> KeyOf(m', list[j]) == KeyOf(m, list[j])
    ensures Splits(m', list, search, x, p)
  {
  }

  lemma PrevCarriesOver(m: Mem, m': Mem, lists: seq<seq<nat>>, lists': seq<seq<nat>>, key: Key, prev: seq<nat>,
                        from: nat, height: nat)
    requires Levels(m, lists) && IsPrev(m, lists, key, prev, from, height)
    requires height <= |lists'| == MAX_HEIGHT && forall l :: from <= l < height ==> lists'[l] == lists[l]
    requires forall n :: 0 <= n < |m.keys| ==> KeyOf(m', n) == KeyOf(m, n)
    ensures IsPrev(m', lists', key, prev, from, height)
  {
    forall l | from <= l < height ensures StandsBefore(m', lists'[l], key, prev[l]) {
      assert StandsBefore(m, lists[l], key, prev[l]);
      var p: nat :| Splits(m, lists[l], GreaterOrEqual(key), prev[l], p);
      assert IsChain(m, l, lists[l]);
      SplitsCarriesOver(m, m', lists[l], GreaterOrEqual(key), prev[l], p);
      assert Splits(m', lists'[l], GreaterOrEqual(key), prev[l], p);
    }
  }

  lemma AllocateKeeps(m: Mem, lists: seq<seq<nat>>, key: Key, height: nat, prev: seq<nat>)
    requires Levels(m, lists) && WriterInv(m, lists, Raised(key, height, prev))
    ensures Levels(Allocate(m, key, height), lists)
    ensures WriterInv(Allocate(m, key, height), lists, Linking(|m.keys|, height, 0, prev, false))
  {
    var m' := Allocate(m, key, height);
    forall l | 0 <= l < MAX_HEIGHT ensures IsChain(m', l, lists[l]) && |m.keys| !in lists[l] {
      assert IsChain(m, l, lists[l]);
      ChainAfterAllocate(m, l, lists[l], key, height);
    }
    PrevCarriesOver(m, m', lists, lists, key, prev, 0, height);
    assert IsChain(m, 0, lists[0]);
    assert KeysOf(m', lists[0]) == KeysOf(m, lists[0]);
  }

  /** `x->NoBarrier_SetNext(i, prev[i]->NoBarrier_Next(i))` changes no chain. */
  lemma PrepareKeeps(m: Mem, lists: seq<seq<nat>>, node: nat, height: nat, level: nat, prev: seq<nat>)
    requires Levels(m, lists) && WriterInv(m, lists, Linking(node, height, level, prev, false))
    ensures HasLevel(m, prev[level], level) && HasLevel(m, node, level)
    ensures var m' := SetNext(m, node, level, m.next[prev[level]][level]);
            Levels(m', lists) && WriterInv(m', lists, Linking(node, height, level, prev, true))
  {
    hide IsChain;
    PrevIsOnLevel(m, lists, node, height, level, prev, false);
    var m' := SetNext(m, node, level, m.next[prev[level]][level]);
    forall l | 0 <= l < MAX_HEIGHT ensures IsChain(m', l, lists[l]) {
      ChainUnaffected(m, l, lists[l], node, level, m.next[prev[level]][level]);
    }
    PrevCarriesOver(m, m', lists, lists, KeyOf(m, node), prev, level, height);
    assert KeysOf(m', lists[0]) == KeysOf(m, lists[0]);
  }

  lemma PrevIsOnLevel(m: Mem, lists: seq<seq<nat>>, node: nat, height: nat, level: nat, prev: seq<nat>, ready: bool)
    requires Levels(m, lists) && WriterInv(m, lists, Linking(node, height, level, prev, ready))
    ensures HasLevel(m, prev[level], level) && HasLevel(m, node, level) && prev[level] != node
    ensures var p := Rank(m, lists[level], KeyOf(m, node));
            && Splits(m, lists[level], GreaterOrEqual(KeyOf(m, node)), prev[level], p)
            && m.next[prev[level]][level] == LinkTo(lists[level], p)
  {
    assert IsChain(m, level, lists[level]);
    assert StandsBefore(m, lists[level], KeyOf(m, node), prev[level]);
    var p: nat :| Splits(m, lists[level], GreaterOrEqual(KeyOf(m, node)), prev[level], p);
    SplitIsRank(m, lists[level], KeyOf(m, node), p);
    assert HasLevel(m, NodeAt(lists[level], p), level);
  }

  /** No other node of the level has the new key. */
  lemma KeyIsNew(m: Mem, lists: seq<seq<nat>>, node: nat, height: nat, level: nat, prev: seq<nat>, ready: bool)
    requires Levels(m, lists) && WriterInv(m, lists, Linking(node, height, level, prev, ready))
    ensures forall j :: 0 <= j < |lists[level]| ==> KeyOf(m, lists[level][j]) != KeyOf(m, node)
  {
    forall j | 0 <= j < |lists[level]| ensures KeyOf(m, lists[level][j]) != KeyOf(m, node) {
      var n := lists[level][j];
      assert n in lists[level] && node !in lists[level];
      LowestHasAll(m, lists, level, n);
      if level == 0 {
        assert KeyOf(m, n) in KeysOf(m, lists[0]);
      } else {
        assert IsChain(m, 0, lists[0]);
      }
    }
  }

  /** `prev[i]->SetNext(i, x)` inserts the node on that level and changes no other. */
  lemma PublishKeeps(m: Mem, lists: seq<seq<nat>>, node: nat, height: nat, level: nat, prev: seq<nat>)
    requires Levels(m, lists) && WriterInv(m, lists, Linking(node, height, level, prev, true))
    ensures HasLevel(m, prev[level], level)
    ensures var m' := SetNext(m, prev[level], level, To(node)); var lists' := Link1(m, lists, level, node);
            && Levels(m', lists')
            && (level + 1 < height ==> WriterInv(m', lists', Linking(node, height, level + 1, prev, false)))
  {
    hide IsChain, Splits;
    PrevIsOnLevel(m, lists, node, height, level, prev, true);
    KeyIsNew(m, lists, node, height, level, prev, true);
    var m' := SetNext(m, prev[level], level, To(node));
    var lists' := Link1(m, lists, level, node);
    var p := Rank(m, lists[level], KeyOf(m, node));
    PublishInserts(m, level, lists[level], node, prev[level], p);
    forall l | 0 <= l < MAX_HEIGHT ensures IsChain(m', l, lists'[l]) {
      if l != level {
        ChainUnaffected(m, l, lists[l], prev[level], level, To(node));
      }
    }
    forall n ensures n in lists'[level] <==> n == node || n in lists[level] {
      InsertAtHas(lists[level], p, node, n);
    }
    forall l | 0 <= l < MAX_HEIGHT - 1 ensures Sublist(lists'[l + 1], lists'[l]) {
      assert Sublist(lists[l + 1], lists[l]);
    }
    PrevCarriesOver(m, m', lists, lists', KeyOf(m, node), prev, level + 1, height);
  }

  lemma InsertAtHas(list: seq<nat>, p: nat, node: nat, n: nat)
    requires p <= |list|
    ensures n in InsertAt(list, p, node) <==> n == node || n in list
  {
    assert list == list[..p] + list[p..];
  }

  // ----- the concurrent system -----

  /** `lists` are the nodes on each level, in order: what the links mean, kept for the proof only. */
  datatype Sys = Sys(mem: Mem, lists: seq<seq<nat>>, writer: Writer, readers: seq<Reader>)

  ghost predicate SysInv(s: Sys) {
    && Levels(s.mem, s.lists)
    && WriterInv(s.mem, s.lists, s.writer)
    && forall i :: 0 <= i < |s.readers| ==> ReaderInv(s.mem, s.lists, s.readers[i])
  }

  ghost predicate Init(s: Sys) {
    && s.mem == Mem([0.0], [seq(MAX_HEIGHT, _ => Null)], 1)
    && s.lists == seq(MAX_HEIGHT, _ => [])
    && s.writer == Idle
    && forall i :: 0 <= i < |s.readers| ==> s.readers[i] == Resting
  }

  /** One atomic step of `Insert`. */
  ghost predicate WriterStep(s: Sys, t: Sys) {
    && t.readers == s.readers
    && match s.writer
       case Idle =>
         && t.writer.Searched? && 1 <= t.writer.height <= MAX_HEIGHT && |s.lists| > 0
         && t.writer.key !in KeysOf(s.mem, s.lists[0])
         && IsPrev(s.mem, s.lists, t.writer.key, t.writer.prev, 0, t.writer.height)
         && t.mem == s.mem && t.lists == s.lists
       case Searched(key, height, prev) =>
         && t.writer == Raised(key, height, prev)
         && t.mem == s.mem.(maxHeight := if height > s.mem.maxHeight then height else s.mem.maxHeight)
         && t.lists == s.lists
       case Raised(key, height, prev) =>
         && t.writer == Linking(|s.mem.keys|, height, 0, prev, false)
         && t.mem == Allocate(s.mem, key, height) && t.lists == s.lists
       case Linking(node, height, level, prev, ready) =>
         && level < |prev| && level < |s.lists| && HasLevel(s.mem, prev[level], level) && HasLevel(s.mem, node, level)
         && if !ready then
              && t.writer == s.writer.(ready := true)
              && t.mem == SetNext(s.mem, node, level, s.mem.next[prev[level]][level]) && t.lists == s.lists
            else
              && t.writer == (if level + 1 < height then Linking(node, height, level + 1, prev, false) else Idle)
              && t.mem == SetNext(s.mem, prev[level], level, To(node))
              && t.lists == Link1(s.mem, s.lists, level, node)
  }

  /** One atomic step of reader `i`: begin a search at any height published so far, or load one link. */
  ghost predicate ReaderStep(s: Sys, t: Sys, i: nat) {
    && i < |s.readers| && t == s.(readers := t.readers) && |t.readers| == |s.readers|
    && (forall j :: 0 <= j < |s.readers| && j != i ==> t.readers[j] == s.readers[j])
    && (ReaderBegins(s, t.readers[i]) || (s.readers[i].Reading? && ReaderLoads(s.mem, s.readers[i], t.readers[i])))
  }

  ghost predicate ReaderBegins(s: Sys, r: Reader) {
    r.Reading? && r.x == 0 && r.level < s.mem.maxHeight && |s.lists| > 0 && r.seen == KeysOf(s.mem, s.lists[0])
  }

  ghost predicate ReaderLoads(m: Mem, r: Reader, r': Reader)
    requires r.Reading?
  {
    HasLevel(m, r.x, r.level) &&
    var link := m.next[r.x][r.level];
    if link.To? && Passes(r.search, KeyOf(m, link.node)) then r' == r.(x := link.node)
    else if r.level > 0 then r' == r.(level := r.level - 1)
    else r' == Done(r.search, if r.search.GreaterOrEqual? then link else To(r.x), r.seen)
  }

  ghost predicate Next(s: Sys, t: Sys) {
    WriterStep(s, t) || exists i: nat :: ReaderStep(s, t, i)
  }

  lemma InitHolds(s: Sys)
    requires Init(s)
    ensures SysInv(s)
  {
    forall l | 0 <= l < MAX_HEIGHT ensures IsChain(s.mem, l, s.lists[l]) {
    }
  }

  /** Lists only grow, and keys never change. */
  ghost predicate Grows(s: Sys, t: Sys) {
    && |s.lists| == |t.lists|
    && (forall l :: 0 <= l < |s.lists| ==> Sublist(s.lists[l], t.lists[l]))
    && |s.mem.keys| <= |t.mem.keys| && (forall n :: 0 <= n < |s.mem.keys| ==> KeyOf(t.mem, n) == KeyOf(s.mem, n))
  }

  lemma ListsCount(m: Mem, lists: seq<seq<nat>>)
    requires Levels(m, lists)
    ensures |lists| == MAX_HEIGHT && 1 <= m.maxHeight <= MAX_HEIGHT
  {
  }

  lemma WriterKeepsLevels(s: Sys, t: Sys)
    requires SysInv(s) && WriterStep(s, t)
    ensures Levels(t.mem, t.lists) && WriterInv(t.mem, t.lists, t.writer) && Grows(s, t)
  {
    hide Levels, IsPrev;
    ListsCount(s.mem, s.lists);
    match s.writer
    case Idle =>
    case Searched(key, height, prev) =>
      RaiseKeeps(s.mem, s.lists, key, height, prev);
    case Raised(key, height, prev) =>
      AllocateKeeps(s.mem, s.lists, key, height, prev);
    case Linking(node, height, level, prev, ready) =>
      if !ready {
        PrepareKeeps(s.mem, s.lists, node, height, level, prev);
      } else {
        PublishKeeps(s.mem, s.lists, node, height, level, prev);
        forall n | n in s.lists[level] ensures n in t.lists[level] {
          InsertAtHas(s.lists[level], Rank(s.mem, s.lists[level], KeyOf(s.mem, node)), node, n);
        }
      }
  }

  /** A reader's place and answer stay good while lists grow. */
  lemma ReaderSurvives(s: Sys, t: Sys, r: Reader)
    requires Levels(s.mem, s.lists) && Grows(s, t) && ReaderInv(s.mem, s.lists, r)
    ensures ReaderInv(t.mem, t.lists, r)
  {
    assert IsChain(s.mem, 0, s.lists[0]);
    assert Sublist(s.lists[0], t.lists[0]);
    match r
    case Resting =>
    case Reading(search, x, level, seen) =>
      assert IsChain(s.mem, level, s.lists[level]);
      assert Sublist(s.lists[level], t.lists[level]);
      forall k | k in seen ensures k in KeysOf(t.mem, t.lists[0]) {
        var n :| n in s.lists[0] && KeyOf(s.mem, n) == k;
        assert n in t.lists[0] && KeyOf(t.mem, n) == k;
      }
    case Done(search, found, seen) =>
  }

  /** One load by a reader: the link is set; the last load of a search gives the exact answer of that moment. */
  lemma LoadKeepsReader(s: Sys, r: Reader, r': Reader)
    requires Levels(s.mem, s.lists) && r.Reading? && ReaderInv(s.mem, s.lists, r)
    ensures HasLevel(s.mem, r.x, r.level) && s.mem.next[r.x][r.level] != Unset
    ensures ReaderLoads(s.mem, r, r') ==> ReaderInv(s.mem, s.lists, r')
    ensures ReaderLoads(s.mem, r, r') && r'.Done? ==> IsAnswer(s.mem, s.lists[0], r.search, r'.found)
  {
    hide IsChain, Splits;
    assert IsChain(s.mem, r.level, s.lists[r.level]);
    var p := LoadOnPath(s.mem, r.level, s.lists[r.level], r.search, r.x);
    if ReaderLoads(s.mem, r, r') {
      if r'.Done? {
        AnswerMissesNothing(s.mem, s.lists[0], r.search, r'.found, r.seen);
      } else if r'.level < r.level {
        assert Sublist(s.lists[(r.level - 1) + 1], s.lists[r.level - 1]);
      }
    }
  }

  lemma NothingGrows(s: Sys, t: Sys)
    requires t == s.(readers := t.readers)
    ensures Grows(s, t)
  {
  }

  lemma GrowsMore(s: Sys, t: Sys, u: Sys)
    requires Grows(s, t) && Grows(t, u)
    ensures Grows(s, u)
  {
  }

  lemma BeginningIsGood(s: Sys, r: Reader)
    requires Levels(s.mem, s.lists) && ReaderBegins(s, r)
    ensures ReaderInv(s.mem, s.lists, r)
  {
  }

  lemma StepKeepsInv(s: Sys, t: Sys)
    requires SysInv(s) && Next(s, t)
    ensures SysInv(t) && Grows(s, t)
  {
    hide Levels, ReaderInv, WriterInv, IsChain, Sublist;
    if WriterStep(s, t) {
      WriterKeepsLevels(s, t);
      forall i | 0 <= i < |t.readers| ensures ReaderInv(t.mem, t.lists, t.readers[i]) {
        ReaderSurvives(s, t, s.readers[i]);
      }
    } else {
      var i: nat :| ReaderStep(s, t, i);
      NothingGrows(s, t);
      if ReaderBegins(s, t.readers[i]) {
        BeginningIsGood(s, t.readers[i]);
      } else {
        LoadKeepsReader(s, s.readers[i], t.readers[i]);
      }
    }
  }

  /** The writer is never stuck half way: from every reachable state it can take its next step. */
  lemma WriterNeverStuck(s: Sys)
    requires SysInv(s) && s.writer != Idle
    ensures exists t :: WriterStep(s, t)
  {
    match s.writer
    case Idle =>
    case Searched(key, height, prev) =>
      var m' := s.mem.(maxHeight := if height > s.mem.maxHeight then height else s.mem.maxHeight);
      assert WriterStep(s, Sys(m', s.lists, Raised(key, height, prev), s.readers));
    case Raised(key, height, prev) =>
      assert WriterStep(s, Sys(Allocate(s.mem, key, height), s.lists, Linking(|s.mem.keys|, height, 0, prev, false),
                               s.readers));
    case Linking(node, height, level, prev, ready) =>
      PrevIsOnLevel(s.mem, s.lists, node, height, level, prev, ready);
      if !ready {
        var m' := SetNext(s.mem, node, level, s.mem.next[prev[level]][level]);
        assert WriterStep(s, Sys(m', s.lists, s.writer.(ready := true), s.readers));
      } else {
        var w := if level + 1 < height then Linking(node, height, level + 1, prev, false) else Idle;
        assert WriterStep(s, Sys(SetNext(s.mem, prev[level], level, To(node)), Link1(s.mem, s.lists, level, node), w,
                                 s.readers));
      }
  }

  ghost predicate IsRun(run: seq<Sys>) {
    && |run| > 0 && Init(run[0])
    && forall i :: 0 <= i < |run| - 1 ==> Next(run[i], run[i + 1])
  }

  /** Every interleaving: at every moment each level is a sorted chain within the level below. */
  lemma {:induction false} EveryInterleaving(run: seq<Sys>, k: nat)
    requires IsRun(run) && k < |run|
    ensures SysInv(run[k])
    ensures forall j :: 0 <= j <= k ==> Grows(run[j], run[k])
  {
    hide SysInv, Next, Grows;
    if k == 0 {
      InitHolds(run[0]);
      NothingGrows(run[0], run[0]);
    } else {
      EveryInterleaving(run, k - 1);
      assert Next(run[k - 1], run[(k - 1) + 1]);
      StepKeepsInv(run[k - 1], run[k]);
      forall j | 0 <= j <= k ensures Grows(run[j], run[k]) {
        if j < k {
          GrowsMore(run[j], run[k - 1], run[k]);
        } else {
          NothingGrows(run[k], run[k]);
        }
      }
    }
  }

  /** A search of any reader in any interleaving.  It begins in `run[b]` and makes its last load in `run[e]`:
      that load's answer is exact for the list of that moment, and misses no key that was present in `run[b]`. */
  lemma ConcurrentSearch(run: seq<Sys>, b: nat, e: nat, i: nat)
    requires IsRun(run) && b < e < |run| - 1 && i < |run[b].readers|
    requires ReaderBegins(run[b], run[b + 1].readers[i]) && ReaderStep(run[b], run[b + 1], i)
    requires forall k :: b < k <= e ==> i < |run[k].readers| && run[k].readers[i].Reading?
    requires forall k :: b < k <= e ==> ReaderContinues(run[k], run[k + 1], i)
    requires i < |run[e + 1].readers| && run[e + 1].readers[i].Done?
    ensures |run[b].lists| > 0 && |run[e].lists| > 0 && i < |run[e + 1].readers|
    ensures var r := run[e + 1].readers[i];
            && r.search == run[b + 1].readers[i].search
            && IsAnswer(run[e].mem, run[e].lists[0], r.search, r.found)
            && MissesNothing(run[e].mem, run[e].lists[0], r.search, r.found, KeysOf(run[b].mem, run[b].lists[0]))
  {
    hide SysInv, ReaderLoads, Grows, Levels, Next;
    EveryInterleaving(run, e);
    assert SysInv(run[e]);
    SearchGoesOn(run, b, e, i);
    var s, r, r' := run[e], run[e].readers[i], run[e + 1].readers[i];
    InvAt(s, i);
    assert ReaderContinues(s, run[e + 1], i);
    assert ReaderLoads(s.mem, r, r');
    LoadKeepsReader(s, r, r');
    LastLoadMissesNothing(s, r, r');
    LoadKeepsSearch(s.mem, r, r');
  }

  lemma InvAt(s: Sys, i: nat)
    requires SysInv(s) && i < |s.readers|
    ensures Levels(s.mem, s.lists) && ReaderInv(s.mem, s.lists, s.readers[i]) && |s.lists| > 0
  {
  }

  lemma LoadKeepsSearch(m: Mem, r: Reader, r': Reader)
    requires r.Reading? && ReaderLoads(m, r, r')
    ensures !r'.Resting? && r'.seen == r.seen && r'.search == r.search
  {
  }

  lemma LastLoadMissesNothing(s: Sys, r: Reader, r': Reader)
    requires Levels(s.mem, s.lists) && r.Reading? && ReaderInv(s.mem, s.lists, r) && r'.Done?
    requires IsAnswer(s.mem, s.lists[0], r.search, r'.found)
    ensures MissesNothing(s.mem, s.lists[0], r.search, r'.found, r.seen)
  {
    assert IsChain(s.mem, 0, s.lists[0]);
    AnswerMissesNothing(s.mem, s.lists[0], r.search, r'.found, r.seen);
  }

  /** Reader `i` either waits or makes a load; it does not begin anew. */
  ghost predicate ReaderContinues(s: Sys, t: Sys, i: nat) {
    && i < |s.readers| && i < |t.readers|
    && (t.readers[i] == s.readers[i] || (s.readers[i].Reading? && ReaderLoads(s.mem, s.readers[i], t.readers[i])))
  }

  lemma {:induction false} SearchGoesOn(run: seq<Sys>, b: nat, e: nat, i: nat)
    requires b < e < |run| && i < |run[b].readers| && i < |run[b + 1].readers|
    requires ReaderBegins(run[b], run[b + 1].readers[i])
    requires forall k :: b < k <= e ==> i < |run[k].readers| && run[k].readers[i].Reading?
    requires forall k :: b < k < e ==> ReaderContinues(run[k], run[k + 1], i)
    ensures run[e].readers[i].search == run[b + 1].readers[i].search
    ensures run[e].readers[i].seen == run[b + 1].readers[i].seen
    decreases e
  {
    if b + 1 < e {
      SearchGoesOn(run, b, e - 1, i);
      assert ReaderContinues(run[e - 1], run[(e - 1) + 1], i);
    }
  }

  // ----- iterating while the writer inserts -----

  ghost predicate OnLowest(s: Sys, x: nat) {
    |s.lists| > 0 && (x == 0 || x in s.lists[0])
  }

  ghost predicate Beyond(m: Mem, x: nat, key: Key) {
    x == 0 || key > KeyOf(m, x)
  }

  /** What `Iterator::Next` loads at node `x`. */
  ghost predicate LoadsNext(s: Sys, x: nat, link: Link) {
    HasLevel(s.mem, x, 0) && s.mem.next[x][0] == link
  }

  /** One `Next`: the link is set and leads to the next key of the moment. */
  lemma NextIsAdjacent(s: Sys, x: nat) returns (link: Link)
    requires SysInv(s) && OnLowest(s, x)
    ensures LoadsNext(s, x, link) && link != Unset
    ensures link.To? ==> link.node != 0 && OnLowest(s, link.node) && Beyond(s.mem, x, KeyOf(s.mem, link.node))
    ensures forall k :: k in KeysOf(s.mem, s.lists[0]) && Beyond(s.mem, x, k) ==>
              link.To? && KeyOf(s.mem, link.node) <= k
  {
    var m, list := s.mem, s.lists[0];
    assert IsChain(m, 0, list);
    hide SysInv;
    var p := PlaceOf(list, x);
    assert HasLevel(m, NodeAt(list, p), 0);
    link := LinkTo(list, p);
    forall k | k in KeysOf(m, list) && Beyond(m, x, k) ensures link.To? && KeyOf(m, link.node) <= k {
      var n :| n in list && KeyOf(m, n) == k;
      var i :| 0 <= i < |list| && list[i] == n;
    }
  }

  /** A reader stands at `nodes[i]` when it calls `Next` in `run[times[i]]`, and the writer may have inserted anything
      between two calls. */
  ghost predicate IsScan(run: seq<Sys>, times: seq<nat>, nodes: seq<nat>) {
    && |nodes| == |times| > 0
    && (forall i :: 0 <= i < |times| ==> times[i] < |run|)
    && (forall i, j :: 0 <= i < j < |times| ==> times[i] <= times[j])
    && OnLowest(run[times[0]], nodes[0])
    && (forall i, j :: 0 <= i && j == i + 1 < |nodes| ==> LoadsNext(run[times[i]], nodes[i], To(nodes[j])))
  }

  ghost predicate Visited(m: Mem, nodes: seq<nat>, key: Key) {
    exists i :: 0 < i < |nodes| && KeyOf(m, nodes[i]) == key
  }

  /** What a scan has done when it stands at its last node. */
  ghost predicate ScanIsGood(run: seq<Sys>, times: seq<nat>, nodes: seq<nat>)
    requires IsScan(run, times, nodes)
  {
    var last := |nodes| - 1;
    var start, s := run[times[0]], run[times[last]];
    && (forall i :: 0 <= i < |nodes| ==> OnLowest(s, nodes[i]))
    && (forall i :: 0 < i < |nodes| ==> nodes[i] != 0)
    && (forall i, j :: 0 <= i < j < |nodes| ==> Beyond(s.mem, nodes[i], KeyOf(s.mem, nodes[j])))
    && (forall k :: k in KeysOf(start.mem, start.lists[0]) ==>
          !Beyond(s.mem, nodes[0], k) || Visited(s.mem, nodes, k) || Beyond(s.mem, nodes[last], k))
  }

  /** A forward scan in any interleaving: keys ascend, no link is unset, no key is missed that was in the list when the
      scan began; and when the scan ends it has visited all of them. */
  lemma {:induction false} ConcurrentScan(run: seq<Sys>, times: seq<nat>, nodes: seq<nat>) returns (link: Link)
    requires IsRun(run) && IsScan(run, times, nodes)
    ensures ScanIsGood(run, times, nodes)
    ensures LoadsNext(run[times[|nodes| - 1]], nodes[|nodes| - 1], link) && link != Unset
    ensures var start, m := run[times[0]], run[times[|nodes| - 1]].mem;
            link == Null ==>
              forall k :: k in KeysOf(start.mem, start.lists[0]) && Beyond(m, nodes[0], k) ==> Visited(m, nodes, k)
    decreases |nodes|
  {
    hide IsRun, SysInv, Grows;
    var last := |nodes| - 1;
    var start, s := run[times[0]], run[times[last]];
    EveryInterleaving(run, times[last]);
    if last > 0 {
      var before := ConcurrentScan(run, times[..last], nodes[..last]);
      assert LoadsNext(run[times[last - 1]], nodes[last - 1], To(nodes[last]));
      EveryInterleaving(run, times[last - 1]);
      EveryInterleaving(run, times[0]);
      ScanGoesOn(run, times, nodes);
    }
    link := NextIsAdjacent(s, nodes[last]);
    GrowsKeys(start, s);
  }

  lemma ScanGoesOn(run: seq<Sys>, times: seq<nat>, nodes: seq<nat>)
    requires IsScan(run, times, nodes) && |nodes| > 1
    requires IsScan(run, times[..|nodes| - 1], nodes[..|nodes| - 1])
    requires ScanIsGood(run, times[..|nodes| - 1], nodes[..|nodes| - 1])
    requires var a, b, start := run[times[|nodes| - 2]], run[times[|nodes| - 1]], run[times[0]];
             SysInv(a) && SysInv(start) && Grows(a, b) && Grows(start, a)
    ensures ScanIsGood(run, times, nodes)
  {
    hide SysInv, Grows, LoadsNext;
    var last := |nodes| - 1;
    var start, a, b := run[times[0]], run[times[last - 1]], run[times[last]];
    assert LoadsNext(a, nodes[last - 1], To(nodes[last]));
    var link := NextOf(a, nodes[last - 1], nodes[last]);
    GrowsKeys(start, a);
    GrowsKeys(a, b);
    assert nodes[..last][last - 1] == nodes[last - 1] && nodes[..last][0] == nodes[0];
    forall i | 0 <= i < |nodes| ensures OnLowest(b, nodes[i]) && KeyOf(b.mem, nodes[i]) == KeyOf(a.mem, nodes[i]) {
      if i < last {
        assert OnLowest(a, nodes[..last][i]);
      }
    }
    forall i, j | 0 <= i < j < |nodes| ensures Beyond(b.mem, nodes[i], KeyOf(b.mem, nodes[j])) {
      if j < last {
        assert Beyond(a.mem, nodes[..last][i], KeyOf(a.mem, nodes[..last][j]));
      } else if i < last - 1 {
        assert Beyond(a.mem, nodes[..last][i], KeyOf(a.mem, nodes[..last][last - 1]));
      }
    }
    ScanVisits(KeysOf(start.mem, start.lists[0]), a.mem, b.mem, nodes);
  }

  /** The scan has missed nothing, if its last step has not. */
  lemma ScanVisits(keys: set<Key>, m: Mem, m': Mem, nodes: seq<nat>)
    requires |nodes| > 1 && forall i :: 0 <= i < |nodes| ==> KeyOf(m', nodes[i]) == KeyOf(m, nodes[i])
    requires var last := |nodes| - 1;
             && (forall k :: k in keys ==>
                   !Beyond(m, nodes[0], k) || Visited(m, nodes[..last], k) || Beyond(m, nodes[last - 1], k))
             && (forall k :: k in keys && Beyond(m, nodes[last - 1], k) ==> KeyOf(m, nodes[last]) <= k)
             && nodes[last] != 0
    ensures forall k :: k in keys ==>
              !Beyond(m', nodes[0], k) || Visited(m', nodes, k) || Beyond(m', nodes[|nodes| - 1], k)
  {
    var last := |nodes| - 1;
    forall k | k in keys && Beyond(m', nodes[0], k) && !Beyond(m', nodes[last], k) ensures Visited(m', nodes, k) {
      if Beyond(m, nodes[last - 1], k) {
        assert KeyOf(m', nodes[last]) == k;
      } else {
        assert Visited(m, nodes[..last], k);
        var i :| 0 < i < last && KeyOf(m, nodes[..last][i]) == k;
        assert KeyOf(m', nodes[i]) == k;
      }
    }
  }

  lemma NextOf(s: Sys, x: nat, node: nat) returns (link: Link)
    requires SysInv(s) && OnLowest(s, x) && LoadsNext(s, x, To(node))
    ensures link == To(node) && node != 0 && OnLowest(s, node) && Beyond(s.mem, x, KeyOf(s.mem, node))
    ensures forall k :: k in KeysOf(s.mem, s.lists[0]) && Beyond(s.mem, x, k) ==> KeyOf(s.mem, node) <= k
  {
    link := NextIsAdjacent(s, x);
  }

  /** Keys that were in the list still are. */
  lemma GrowsKeys(s: Sys, t: Sys)
    requires Grows(s, t) && |s.lists| > 0
    requires SysInv(s)
    ensures |t.lists| > 0 && KeysOf(s.mem, s.lists[0]) <= KeysOf(t.mem, t.lists[0])
    ensures forall x :: OnLowest(s, x) ==> OnLowest(t, x) && KeyOf(t.mem, x) == KeyOf(s.mem, x)
  {
    assert IsChain(s.mem, 0, s.lists[0]);
    assert Sublist(s.lists[0], t.lists[0]);
    forall k | k in KeysOf(s.mem, s.lists[0]) ensures k in KeysOf(t.mem, t.lists[0]) {
      var n :| n in s.lists[0] && KeyOf(s.mem, n) == k;
      assert n in t.lists[0] && KeyOf(t.mem, n) == k;
    }
  }
}
