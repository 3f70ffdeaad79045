/** One shard of the LRU cache (`LRUCache` in util/cache.cc).  An entry is identified by a number; the two lists hold
the numbers of their entries, the oldest first. */
module LruCache {
  import opened Common
  import opened HandleTables

  /** An `LRUHandle` without the links. */
  datatype Handle = Handle(key: Key, hash: nat, value: nat, charge: nat, inCache: bool, refs: nat)

  /** The state of a shard.  `contents` is what the hash table holds, `clients` the handles that clients hold (for the
      proof only), `deleted` the entries whose deleter ran, in order. */
  datatype Shard = Shard(usage: nat, lru: seq<nat>, inUse: seq<nat>, handles: map<nat, Handle>, contents: set<Node>,
                         clients: multiset<nat>, deleted: seq<nat>, nextId: nat)

  function NodeOf(id: nat, h: Handle): Node {
    Node(id, h.key, h.hash)
  }

  ghost predicate Distinct(list: seq<nat>) {
    forall i, j :: 0 <= i < j < |list| ==> list[i] != list[j]
  }

  /** References are what clients hold and the cache's own. */
  ghost predicate RefsValid(handles: map<nat, Handle>, clients: multiset<nat>) {
    && (forall id :: id in handles ==>
          && handles[id].refs == clients[id] + (if handles[id].inCache then 1 else 0)
          && handles[id].refs > 0)
    && (forall id :: id in clients ==> id in handles)
  }

  /** Each cached entry is on exactly one list, decided by whether clients hold it. */
  ghost predicate ListsValid(handles: map<nat, Handle>, lru: seq<nat>, inUse: seq<nat>) {
    && Distinct(lru) && Distinct(inUse)
    && (forall id :: id in lru <==> id in handles && handles[id].inCache && handles[id].refs == 1)
    && (forall id :: id in inUse <==> id in handles && handles[id].inCache && handles[id].refs >= 2)
  }

  /** The table holds exactly the cached entries. */
  ghost predicate TableMatches(handles: map<nat, Handle>, contents: set<Node>) {
    forall n :: n in contents <==> n.id in handles && handles[n.id].inCache && n == NodeOf(n.id, handles[n.id])
  }

  function Charges(handles: map<nat, Handle>, list: seq<nat>): nat {
    if list == [] then 0 else (if list[0] in handles then handles[list[0]].charge else 0) + Charges(handles, list[1..])
  }

  /** The deleter has run for exactly the entries that are gone, once for each. */
  ghost predicate FreedValid(handles: map<nat, Handle>, deleted: seq<nat>, nextId: nat) {
    && Distinct(deleted)
    && (forall id: nat :: id in deleted <==> id < nextId && id !in handles)
    && (forall id :: id in handles ==> id < nextId)
  }

  ghost predicate UsageValid(s: Shard) {
    s.usage == Charges(s.handles, s.lru) + Charges(s.handles, s.inUse)
  }

  ghost predicate Inv(s: Shard) {
    && RefsValid(s.handles, s.clients) && ListsValid(s.handles, s.lru, s.inUse) && TableMatches(s.handles, s.contents)
    && UsageValid(s)
    && FreedValid(s.handles, s.deleted, s.nextId)
  }

  // ----- lists -----

  /** `LRU_Remove` */
  function Removed(list: seq<nat>, e: nat): seq<nat> {
    if list == [] then [] else if list[0] == e then list[1..] else [list[0]] + Removed(list[1..], e)
  }

  lemma {:induction false} RemovedHas(list: seq<nat>, e: nat)
    requires Distinct(list)
    ensures Distinct(Removed(list, e)) && forall id :: id in Removed(list, e) <==> id in list && id != e
  {
    if list != [] {
      var rest := list[1..];
      assert forall i :: 0 <= i < |rest| ==> rest[i] == list[i + 1] && list[0] != list[i + 1];
      assert list == [list[0]] + rest;
      RemovedHas(rest, e);
      if list[0] != e {
        PrependDistinct(list[0], Removed(rest, e));
      }
    }
  }

  lemma PrependDistinct(e: nat, list: seq<nat>)
    requires Distinct(list) && e !in list
    ensures Distinct([e] + list)
  {
  }

  lemma ConcatDistinct(a: seq<nat>, b: seq<nat>)
    requires Distinct(a) && Distinct(b) && forall id :: id in b ==> id !in a
    ensures Distinct(a + b)
  {
    forall i, j | 0 <= i < j < |a + b| ensures (a + b)[i] != (a + b)[j] {
      if i < |a| <= j {
        assert b[j - |a|] in b;
      }
    }
  }

  lemma AppendDistinct(list: seq<nat>, e: nat)
    requires Distinct(list) && e !in list
    ensures Distinct(list + [e])
  {
  }

  lemma {:induction false} ChargesRemoved(handles: map<nat, Handle>, list: seq<nat>, e: nat)
    requires e in list && e in handles
    ensures Charges(handles, list) == Charges(handles, Removed(list, e)) + handles[e].charge
  {
    if list[0] != e {
      ChargesRemoved(handles, list[1..], e);
      assert ([list[0]] + Removed(list[1..], e))[1..] == Removed(list[1..], e);
    }
  }

  lemma {:induction false} ChargesAppended(handles: map<nat, Handle>, list: seq<nat>, e: nat)
    requires e in handles
    ensures Charges(handles, list + [e]) == Charges(handles, list) + handles[e].charge
  {
    if list == [] {
      assert list + [e] == [e];
      assert Charges(handles, [e]) == handles[e].charge + Charges(handles, []);
    } else {
      assert (list + [e])[1..] == list[1..] + [e];
      ChargesAppended(handles, list[1..], e);
    }
  }

  lemma {:induction false} ChargesSame(handles: map<nat, Handle>, handles': map<nat, Handle>, list: seq<nat>)
    requires forall id :: id in list ==> id in handles && id in handles' && handles[id].charge == handles'[id].charge
    ensures Charges(handles, list) == Charges(handles', list)
  {
    if list != [] {
      ChargesSame(handles, handles', list[1..]);
    }
  }

  lemma RemovedAbsent(list: seq<nat>, e: nat)
    requires e !in list
    ensures Removed(list, e) == list
  {
    if list != [] {
      RemovedAbsent(list[1..], e);
    }
  }

  // ----- what the internal operations do -----

  function AfterRef(s: Shard, e: nat): Shard
    requires e in s.handles
  {
    var h := s.handles[e];
    var handles := s.handles[e := h.(refs := h.refs + 1)];
    if h.refs == 1 && h.inCache then s.(lru := Removed(s.lru, e), inUse := s.inUse + [e], handles := handles)
    else s.(handles := handles)
  }

  function AfterUnref(s: Shard, e: nat): Shard
    requires e in s.handles && s.handles[e].refs > 0
  {
    var h := s.handles[e];
    var handles := s.handles[e := h.(refs := h.refs - 1)];
    if h.refs == 1 then s.(handles := s.handles - {e}, deleted := s.deleted + [e])
    else if h.inCache && h.refs == 2 then s.(inUse := Removed(s.inUse, e), lru := s.lru + [e], handles := handles)
    else s.(handles := handles)
  }

  /** The first half of `FinishErase`: the entry leaves its list and the cache, and the cache's reference is the
      caller's to drop. */
  function Uncached(s: Shard, e: nat): Shard
    requires e in s.handles && s.handles[e].charge <= s.usage
  {
    var h := s.handles[e];
    s.(lru := Removed(s.lru, e), inUse := Removed(s.inUse, e), handles := s.handles[e := h.(inCache := false)],
       usage := s.usage - h.charge, contents := s.contents - {NodeOf(e, h)}, clients := s.clients + multiset{e})
  }

  // ----- every operation keeps the invariant -----

  /** The entries on the lists are the cached ones. */
  lemma OnLists(s: Shard, id: nat)
    requires RefsValid(s.handles, s.clients) && ListsValid(s.handles, s.lru, s.inUse)
    ensures id in s.lru || id in s.inUse <==> id in s.handles && s.handles[id].inCache
    ensures !(id in s.lru && id in s.inUse)
  {
  }

  lemma UsageIgnoresClients(s: Shard, clients: multiset<nat>)
    requires UsageValid(s)
    ensures UsageValid(s.(clients := clients))
  {
  }

  lemma InTableIsCached(s: Shard, n: Node)
    requires Inv(s) && n in s.contents
    ensures n.id in s.handles && s.handles[n.id].inCache && n == NodeOf(n.id, s.handles[n.id])
  {
  }

  lemma RefKeepsLists(s: Shard, e: nat)
    requires RefsValid(s.handles, s.clients) && ListsValid(s.handles, s.lru, s.inUse) && e in s.handles
    ensures var t := AfterRef(s, e); ListsValid(t.handles, t.lru, t.inUse)
  {
    hide Distinct, Removed;
    OnLists(s, e);
    RemovedHas(s.lru, e);
    if e in s.lru {
      AppendDistinct(s.inUse, e);
    }
  }

  lemma RefKeepsUsage(s: Shard, e: nat)
    requires RefsValid(s.handles, s.clients) && ListsValid(s.handles, s.lru, s.inUse) && UsageValid(s) && e in s.handles
    ensures UsageValid(AfterRef(s, e))
  {
    hide Distinct, Removed, Charges;
    var t := AfterRef(s, e);
    ChargesSame(s.handles, t.handles, s.lru);
    ChargesSame(s.handles, t.handles, s.inUse);
    if e in s.lru {
      ChargesRemoved(t.handles, s.lru, e);
      ChargesAppended(t.handles, s.inUse, e);
    }
  }

  lemma RefKeepsRefs(s: Shard, e: nat)
    requires RefsValid(s.handles, s.clients) && TableMatches(s.handles, s.contents) && e in s.handles
    ensures var t := AfterRef(s, e);
            RefsValid(t.handles, s.clients + multiset{e}) && TableMatches(t.handles, t.contents)
  {
    hide Removed;
  }

  lemma LookupKeeps(s: Shard, e: nat)
    requires Inv(s) && e in s.handles
    ensures Inv(AfterRef(s, e).(clients := s.clients + multiset{e}))
  {
    hide ListsValid, UsageValid, RefsValid, TableMatches, Distinct, Removed;
    RefKeepsLists(s, e);
    RefKeepsUsage(s, e);
    RefKeepsRefs(s, e);
    UsageIgnoresClients(AfterRef(s, e), s.clients + multiset{e});
  }

  lemma UnrefKeepsLists(s: Shard, e: nat)
    requires RefsValid(s.handles, s.clients) && ListsValid(s.handles, s.lru, s.inUse) && e in s.clients
    ensures var t := AfterUnref(s, e); ListsValid(t.handles, t.lru, t.inUse)
  {
    hide Distinct, Removed;
    OnLists(s, e);
    RemovedHas(s.inUse, e);
    if e in s.inUse {
      AppendDistinct(s.lru, e);
    }
  }

  lemma UnrefKeepsUsage(s: Shard, e: nat)
    requires RefsValid(s.handles, s.clients) && ListsValid(s.handles, s.lru, s.inUse) && UsageValid(s) && e in s.clients
    ensures UsageValid(AfterUnref(s, e))
  {
    hide Distinct, Removed, Charges;
    var t := AfterUnref(s, e);
    OnLists(s, e);
    ChargesSame(s.handles, t.handles, s.lru);
    ChargesSame(s.handles, t.handles, s.inUse);
    if s.handles[e].inCache && s.handles[e].refs == 2 {
      ChargesRemoved(t.handles, s.inUse, e);
      ChargesAppended(t.handles, s.lru, e);
    }
  }

  lemma UnrefKeepsRefs(s: Shard, e: nat)
    requires RefsValid(s.handles, s.clients) && TableMatches(s.handles, s.contents) && e in s.clients
    ensures var t := AfterUnref(s, e);
            RefsValid(t.handles, s.clients - multiset{e}) && TableMatches(t.handles, t.contents)
  {
    hide Removed;
  }

  lemma ReleaseKeeps(s: Shard, e: nat)
    requires Inv(s) && e in s.clients
    ensures e in s.handles && s.handles[e].refs > 0
    ensures Inv(AfterUnref(s, e).(clients := s.clients - multiset{e}))
  {
    assert e in s.handles && s.handles[e].refs > 0;
    hide ListsValid, UsageValid, RefsValid, TableMatches, Distinct, Removed, FreedValid;
    UnrefKeepsLists(s, e);
    UnrefKeepsUsage(s, e);
    UnrefKeepsRefs(s, e);
    UnrefKeepsFreed(s, e);
    UsageIgnoresClients(AfterUnref(s, e), s.clients - multiset{e});
  }

  lemma UnrefKeepsFreed(s: Shard, e: nat)
    requires FreedValid(s.handles, s.deleted, s.nextId) && e in s.handles && s.handles[e].refs > 0
    ensures var t := AfterUnref(s, e); FreedValid(t.handles, t.deleted, t.nextId)
  {
    hide Distinct, Removed;
    if s.handles[e].refs == 1 {
      AppendDistinct(s.deleted, e);
    }
  }

  lemma UncacheKeepsUsage(s: Shard, e: nat)
    requires RefsValid(s.handles, s.clients) && ListsValid(s.handles, s.lru, s.inUse) && UsageValid(s)
    requires e in s.handles && s.handles[e].inCache
    ensures s.handles[e].charge <= s.usage && UsageValid(Uncached(s, e))
  {
    hide Distinct, Removed, Charges;
    OnLists(s, e);
    var handles' := s.handles[e := s.handles[e].(inCache := false)];
    ChargesSame(s.handles, handles', s.lru);
    ChargesSame(s.handles, handles', s.inUse);
    if e in s.lru {
      ChargesRemoved(handles', s.lru, e);
      RemovedAbsent(s.inUse, e);
    } else {
      ChargesRemoved(handles', s.inUse, e);
      RemovedAbsent(s.lru, e);
    }
  }

  lemma UncacheKeepsLists(s: Shard, e: nat)
    requires ListsValid(s.handles, s.lru, s.inUse) && e in s.handles && s.handles[e].charge <= s.usage
    ensures var t := Uncached(s, e); ListsValid(t.handles, t.lru, t.inUse)
  {
    hide Distinct, Removed;
    RemovedHas(s.lru, e);
    RemovedHas(s.inUse, e);
  }

  lemma UncacheKeepsRefs(s: Shard, e: nat)
    requires RefsValid(s.handles, s.clients) && TableMatches(s.handles, s.contents)
    requires e in s.handles && s.handles[e].inCache && s.handles[e].charge <= s.usage
    ensures var t := Uncached(s, e); RefsValid(t.handles, t.clients) && TableMatches(t.handles, t.contents)
  {
    hide Removed;
  }

  lemma UncacheKeeps(s: Shard, e: nat)
    requires Inv(s) && e in s.handles && s.handles[e].inCache
    ensures s.handles[e].charge <= s.usage && Inv(Uncached(s, e))
  {
    hide ListsValid, UsageValid, RefsValid, TableMatches, Distinct, Removed;
    UncacheKeepsUsage(s, e);
    UncacheKeepsLists(s, e);
    UncacheKeepsRefs(s, e);
  }

  /** `FinishErase` of a cached entry. */
  function AfterErase(s: Shard, e: nat): Shard
    requires e in s.handles && s.handles[e].refs > 0 && s.handles[e].charge <= s.usage
  {
    AfterUnref(Uncached(s, e), e).(clients := s.clients)
  }

  lemma EraseKeeps(s: Shard, e: nat)
    requires Inv(s) && e in s.handles && s.handles[e].inCache
    ensures s.handles[e].charge <= s.usage && s.handles[e].refs > 0 && Inv(AfterErase(s, e))
  {
    UncacheKeeps(s, e);
    ReleaseKeeps(Uncached(s, e), e);
    assert s.clients + multiset{e} - multiset{e} == s.clients;
  }

  /** A new entry that the cache and one client hold; an entry of the same slot may still be there. */
  function Added(s: Shard, h: Handle): Shard {
    var e := s.nextId;
    s.(inUse := s.inUse + [e], usage := s.usage + h.charge, handles := s.handles[e := h.(inCache := true, refs := 2)],
       contents := s.contents + {NodeOf(e, h)}, clients := s.clients + multiset{e}, nextId := e + 1)
  }

  lemma AddKeeps(s: Shard, h: Handle)
    requires Inv(s)
    ensures Inv(Added(s, h))
  {
    hide RefsValid, ListsValid, TableMatches, UsageValid, FreedValid;
    AddKeepsLists(s, h);
    AddKeepsRefs(s, h);
    AddKeepsTable(s, h);
    AddKeepsUsage(s, h);
    AddKeepsFreed(s, h);
  }

  lemma AddKeepsRefs(s: Shard, h: Handle)
    requires RefsValid(s.handles, s.clients) && FreedValid(s.handles, s.deleted, s.nextId)
    ensures var t := Added(s, h); RefsValid(t.handles, t.clients)
  {
    hide Distinct;
  }

  lemma AddKeepsTable(s: Shard, h: Handle)
    requires TableMatches(s.handles, s.contents) && FreedValid(s.handles, s.deleted, s.nextId)
    ensures var t := Added(s, h); TableMatches(t.handles, t.contents)
  {
    hide Distinct;
  }

  lemma AddKeepsUsage(s: Shard, h: Handle)
    requires UsageValid(s) && ListsValid(s.handles, s.lru, s.inUse) && FreedValid(s.handles, s.deleted, s.nextId)
    ensures UsageValid(Added(s, h))
  {
    hide Distinct, Charges;
    var e, t := s.nextId, Added(s, h);
    ChargesSame(s.handles, t.handles, s.lru);
    ChargesSame(s.handles, t.handles, s.inUse);
    ChargesAppended(t.handles, s.inUse, e);
  }

  lemma AddKeepsFreed(s: Shard, h: Handle)
    requires FreedValid(s.handles, s.deleted, s.nextId)
    ensures var t := Added(s, h); FreedValid(t.handles, t.deleted, t.nextId)
  {
    hide Distinct;
  }

  lemma AddKeepsLists(s: Shard, h: Handle)
    requires ListsValid(s.handles, s.lru, s.inUse) && FreedValid(s.handles, s.deleted, s.nextId)
    ensures var t := Added(s, h); ListsValid(t.handles, t.lru, t.inUse)
  {
    hide Distinct;
    assert s.nextId !in s.inUse;
    AppendDistinct(s.inUse, s.nextId);
  }

  /** Without a cache, the entry is the client's alone. */
  function Uncounted(s: Shard, h: Handle): Shard {
    var e := s.nextId;
    s.(handles := s.handles[e := h.(inCache := false, refs := 1)], clients := s.clients + multiset{e}, nextId := e + 1)
  }

  lemma UncountedKeeps(s: Shard, h: Handle)
    requires Inv(s)
    ensures Inv(Uncounted(s, h))
  {
    var e, t := s.nextId, Uncounted(s, h);
    assert e !in s.inUse && e !in s.lru;
    ChargesSame(s.handles, t.handles, s.lru);
    ChargesSame(s.handles, t.handles, s.inUse);
  }

  ghost function IdsOf(list: seq<nat>): set<nat> {
    set id | id in list
  }

  /** The `k` oldest entries that no client holds are evicted: gone from the list and the table, and deleted. */
  ghost predicate Evicts(s: Shard, t: Shard, k: nat) {
    && k <= |s.lru| && t.lru == s.lru[k..] && t.deleted == s.deleted + s.lru[..k]
    && t.inUse == s.inUse && t.clients == s.clients && t.nextId == s.nextId
    && t.handles == s.handles - IdsOf(s.lru[..k])
    && t.contents == set n | n in s.contents && n.id !in s.lru[..k]
  }

  lemma EvictsNone(s: Shard)
    ensures Evicts(s, s, 0)
  {
  }

  lemma EraseOldestEvicts(s: Shard)
    requires Inv(s) && s.lru != []
    ensures var e := s.lru[0];
            && e in s.handles && s.handles[e].inCache && s.handles[e].refs == 1 && s.handles[e].charge <= s.usage
            && Evicts(s, AfterErase(s, e), 1) && AfterErase(s, e).usage == s.usage - s.handles[e].charge
  {
    hide Distinct, UsageValid, FreedValid;
    var e := s.lru[0];
    assert e in s.lru;
    UncacheKeepsUsage(s, e);
    var t := AfterErase(s, e);
    assert s.lru[..1] == [e];
    assert e !in s.inUse;
    RemovedAbsent(s.inUse, e);
    assert IdsOf([e]) == {e};
    assert t.handles == s.handles - {e};
    assert t.contents == s.contents - {NodeOf(e, s.handles[e])};
    forall n | n in s.contents ensures n.id !in s.lru[..1] <==> n != NodeOf(e, s.handles[e]) {
    }
  }

  lemma EvictsShortens(s: Shard, t: Shard)
    requires Evicts(s, t, 1)
    ensures |t.lru| < |s.lru|
  {
  }

  lemma EvictsMore(s: Shard, t: Shard, u: Shard, k: nat)
    requires Evicts(s, t, k) && Evicts(t, u, 1)
    ensures Evicts(s, u, k + 1)
  {
    assert s.lru[..k] + t.lru[..1] == s.lru[..k + 1];
    assert s.lru[k..][1..] == s.lru[k + 1..];
  }

  /** The deleter never runs while a client holds the entry. */
  lemma HeldIsAlive(s: Shard, e: nat)
    requires Inv(s) && e in s.clients
    ensures e in s.handles && e !in s.deleted
  {
  }

  /** It runs when the last reference goes; an entry that the cache keeps becomes the newest on the LRU list when the
      last client lets it go. */
  lemma LastReleaseDecides(s: Shard, e: nat)
    requires Inv(s) && e in s.clients
    ensures e in s.handles && s.handles[e].refs > 0
    ensures var t := AfterUnref(s, e); var last := s.clients[e] == 1;
            && (e in t.deleted <==> last && !s.handles[e].inCache)
            && t.deleted == s.deleted + (if last && !s.handles[e].inCache then [e] else [])
            && t.lru == s.lru + (if last && s.handles[e].inCache then [e] else [])
  {
    hide Removed, Distinct;
    assert e in s.handles && e !in s.deleted;
  }

  lemma EmptyIsValid(s: Shard)
    requires s.usage == 0 && s.lru == s.inUse == s.deleted == [] && s.handles == map[] && s.contents == {}
    requires s.clients == multiset{} && s.nextId == 0
    ensures Inv(s)
  {
  }

  // ----- what clients have put in -----

  predicate SameEntry(g: Handle, h: Handle) {
    g.key == h.key && g.hash == h.hash && g.value == h.value && g.charge == h.charge
  }

  /** No entry changes, and none comes into the cache. */
  ghost predicate Keeps(a: map<nat, Handle>, b: map<nat, Handle>) {
    && (forall id :: id in a && id in b ==> SameEntry(a[id], b[id]))
    && (forall id :: id in b && b[id].inCache ==> id in a && a[id].inCache)
  }

  /** The value that was inserted last for a key and its hash. */
  type Memory = map<(Key, nat), nat>

  /** Every cached entry is the one that was inserted last for its slot. */
  ghost predicate Remembers(handles: map<nat, Handle>, last: Memory) {
    forall id :: id in handles && handles[id].inCache ==>
      (handles[id].key, handles[id].hash) in last && last[(handles[id].key, handles[id].hash)] == handles[id].value
  }

  lemma KeepsMemory(a: map<nat, Handle>, b: map<nat, Handle>, last: Memory)
    requires Keeps(a, b) && Remembers(a, last)
    ensures Remembers(b, last)
  {
  }

  lemma RefKeepsEntries(s: Shard, e: nat)
    requires e in s.handles
    ensures Keeps(s.handles, AfterRef(s, e).handles)
  {
  }

  lemma RefKeepsEntry(s: Shard, e: nat)
    requires e in s.handles
    ensures var t := AfterRef(s, e); e in t.handles && SameEntry(s.handles[e], t.handles[e])
                                     && t.handles[e].inCache == s.handles[e].inCache
  {
  }

  lemma UnrefKeepsEntries(s: Shard, e: nat)
    requires e in s.handles && s.handles[e].refs > 0
    ensures Keeps(s.handles, AfterUnref(s, e).handles)
  {
  }

  lemma EraseKeepsEntries(s: Shard, e: nat)
    requires e in s.handles && s.handles[e].refs > 0 && s.handles[e].charge <= s.usage
    ensures Keeps(s.handles, AfterErase(s, e).handles)
  {
    hide Removed;
    UnrefKeepsEntries(Uncached(s, e), e);
  }

  lemma EvictionKeepsEntries(s: Shard, t: Shard, k: nat)
    requires Evicts(s, t, k)
    ensures Keeps(s.handles, t.handles)
  {
  }

  /** The new entry is as the caller gave it, held once, and cached unless there is no cache; the others are as they
      were, and of its slot no other is cached. */
  ghost predicate Enters(a: map<nat, Handle>, b: map<nat, Handle>, e: nat, h: Handle, capacity: nat) {
    && e !in a && e in b && SameEntry(h, b[e]) && (b[e].inCache <==> capacity > 0)
    && (forall id :: id in a && id in b ==> SameEntry(a[id], b[id]))
    && (forall id :: id in b && b[id].inCache && id != e ==>
          id in a && a[id].inCache && !(b[id].key == h.key && b[id].hash == h.hash && capacity > 0))
  }

  lemma AddEnters(s: Shard, h: Handle, capacity: nat, n: Option<Node>, mid: Shard)
    requires Inv(s) && Inv(mid) && Adds(s, h, capacity, n, mid) && UniqueSlots(mid.contents)
    ensures Enters(s.handles, mid.handles, s.nextId, h, capacity)
  {
    hide Adds, Inv;
    NewIsNew(s);
    if capacity > 0 {
      AddedIs(s, h, n, mid, capacity);
      forall id | id in mid.handles && mid.handles[id].inCache && id != s.nextId
        ensures !(mid.handles[id].key == h.key && mid.handles[id].hash == h.hash)
      {
        CachedIsInTable(mid, id);
        CachedIsInTable(mid, s.nextId);
      }
    } else {
      UncountedIs(s, h, n, mid);
    }
  }

  lemma UncountedIs(s: Shard, h: Handle, n: Option<Node>, mid: Shard)
    requires Adds(s, h, 0, n, mid) && s.nextId !in s.handles
    ensures Enters(s.handles, mid.handles, s.nextId, h, 0)
  {
  }

  lemma NewIsNew(s: Shard)
    requires Inv(s)
    ensures s.nextId !in s.handles
  {
  }

  lemma CachedIsInTable(s: Shard, id: nat)
    requires Inv(s) && id in s.handles && s.handles[id].inCache
    ensures NodeOf(id, s.handles[id]) in s.contents
  {
  }

  lemma AddedIs(s: Shard, h: Handle, n: Option<Node>, mid: Shard, capacity: nat)
    requires Inv(s) && capacity > 0 && Adds(s, h, capacity, n, mid)
    ensures var e := s.nextId;
            && e in mid.handles && SameEntry(h, mid.handles[e]) && mid.handles[e].inCache
            && (forall id :: id in s.handles && id in mid.handles ==> SameEntry(s.handles[id], mid.handles[id]))
            && (forall id :: id in mid.handles && mid.handles[id].inCache && id != e ==>
                  id in s.handles && s.handles[id].inCache)
  {
    NewIsNew(s);
    hide Inv, Removed, AfterErase;
    if n.Some? {
      var m := n.value;
      InTableIsOld(s, m);
      EraseKeepsEntries(Added(s, h), m.id);
    }
  }

  lemma InTableIsOld(s: Shard, n: Node)
    requires Inv(s) && n in s.contents
    ensures n.id in s.handles && s.handles[n.id].inCache && n.id != s.nextId
  {
  }

  class LRUCache {
    const capacity: nat
    const table: HandleTable
    var usage: nat
    var lru: seq<nat>
    var inUse: seq<nat>
    var handles: map<nat, Handle>
    var nextId: nat
    var deleted: seq<nat>
    /** The handles that clients hold. */
    ghost var clients: multiset<nat>
    ghost var last: Memory

    ghost function View(): Shard
      reads this, table
    {
      Shard(usage, lru, inUse, handles, table.Contents(), clients, deleted, nextId)
    }

    ghost predicate Valid()
      reads this, table
    {
      table.Valid() && Inv(View())
    }

    ghost predicate ValidMemory()
      reads this
    {
      Remembers(handles, last)
    }

    constructor (capacity: nat)
      ensures Valid() && ValidMemory() && this.capacity == capacity && fresh(table)
      ensures clients == multiset{} && handles == map[] && deleted == [] && nextId == 0
    {
      this.capacity := capacity;
      table := new HandleTable();
      usage, lru, inUse, handles, nextId, deleted, clients, last := 0, [], [], map[], 0, [], multiset{}, map[];
      new;
      hide Inv;
      EmptyIsValid(View());
    }

    method Ref(e: nat)
      requires e in handles
      modifies this`lru, this`inUse, this`handles
      ensures View() == AfterRef(old(View()), e)
    {
      var h := handles[e];
      if h.refs == 1 && h.inCache {
        lru := Removed(lru, e);
        inUse := inUse + [e];
      }
      handles := handles[e := h.(refs := h.refs + 1)];
    }

    method Unref(e: nat)
      requires e in handles && handles[e].refs > 0
      modifies this`lru, this`inUse, this`handles, this`deleted
      ensures View() == AfterUnref(old(View()), e)
      ensures old(handles)[e].refs == 1 ==>
                handles == old(handles) - {e} && deleted == old(deleted) + [e] && lru == old(lru)
    {
      var h := handles[e];
      handles := handles[e := h.(refs := h.refs - 1)];
      if h.refs == 1 {
        deleted := deleted + [e];
        handles := handles - {e};
      } else if h.inCache && h.refs == 2 {
        inUse := Removed(inUse, e);
        lru := lru + [e];
      }
    }

    /** `s` is the state before the entry was removed from the hash table. */
    method FinishErase(n: Option<Node>, ghost s: Shard) returns (erased: bool)
      requires table.Valid() && Inv(s) && (n.Some? ==> n.value in s.contents)
      requires View() == s.(contents := Without(s.contents, n))
      modifies this`lru, this`inUse, this`handles, this`deleted, this`usage
      ensures erased == n.Some? && Valid()
      ensures match n
              case None => View() == s
              case Some(n) => n.id in s.handles && s.handles[n.id].refs > 0 && s.handles[n.id].charge <= s.usage
                              && View() == AfterErase(s, n.id)
    {
      hide Inv, TableMatches, Removed;
      if n.Some? {
        var e := n.value.id;
        InTableIsCached(s, n.value);
        EraseKeeps(s, e);
        lru := Removed(lru, e);
        inUse := Removed(inUse, e);
        handles := handles[e := handles[e].(inCache := false)];
        usage := usage - handles[e].charge;
        assert s.handles[e].refs > 0;
        Unref(e);
        assert View() == AfterErase(s, e);
      }
      return n.Some?;
    }

    method Lookup(key: Key, hash: nat) returns (r: Option<nat>)
      requires Valid() && ValidMemory()
      modifies this
      ensures Valid() && ValidMemory() && last == old(last) && Keeps(old(handles), handles)
      ensures match r
              case Some(e) => (exists n :: n in old(View()).contents && n.id == e && SameSlot(n, key, hash))
                              && e in old(handles)
                              && View() == AfterRef(old(View()), e).(clients := old(clients) + multiset{e})
              case None => View() == old(View()) && forall n :: n in View().contents ==> !SameSlot(n, key, hash)
      ensures r.Some? ==>
                && r.value in handles && handles[r.value].key == key && handles[r.value].hash == hash
                && (key, hash) in last && handles[r.value].value == last[(key, hash)]
    {
      hide Inv, Removed, AfterRef;
      ghost var s := View();
      var n := table.Lookup(key, hash);
      if n.Some? {
        InTableIsCached(s, n.value);
        LookupKeeps(View(), n.value.id);
        Ref(n.value.id);
        RefKeepsEntries(s, n.value.id);
        RefKeepsEntry(s, n.value.id);
        KeepsMemory(s.handles, handles, last);
        clients := clients + multiset{n.value.id};
        return Some(n.value.id);
      }
      return None;
    }

    method Release(e: nat)
      requires Valid() && ValidMemory() && e in clients
      modifies this
      ensures Valid() && ValidMemory() && last == old(last) && Keeps(old(handles), handles)
      ensures e in old(handles) && old(handles)[e].refs > 0
      ensures View() == AfterUnref(old(View()), e).(clients := old(clients) - multiset{e})
    {
      hide Inv, Removed;
      ReleaseKeeps(View(), e);
      UnrefKeepsEntries(View(), e);
      KeepsMemory(View().handles, AfterUnref(View(), e).handles, last);
      Unref(e);
      clients := clients - multiset{e};
    }

    method Erase(key: Key, hash: nat) returns (ghost n: Option<Node>)
      requires Valid() && ValidMemory()
      modifies this, table
      ensures Valid() && ValidMemory() && last == old(last) && Keeps(old(handles), handles)
      ensures match n
              case None => View() == old(View()) && forall n :: n in View().contents ==> !SameSlot(n, key, hash)
              case Some(n) => n in old(View()).contents && SameSlot(n, key, hash) && n.id in old(handles)
                              && old(handles)[n.id].refs > 0 && old(handles)[n.id].charge <= old(usage)
                              && View() == AfterErase(old(View()), n.id)
    {
      hide Inv, Removed;
      ghost var s := View();
      var found := table.Remove(key, hash);
      var _ := FinishErase(found, s);
      if found.Some? {
        EraseKeepsEntries(s, found.value.id);
      }
      KeepsMemory(s.handles, handles, last);
      return found;
    }

    /** Erases the entry at the head of the LRU list. */
    method EvictOldest()
      requires Valid() && lru != []
      modifies this, table
      ensures Valid() && Evicts(old(View()), View(), 1) && last == old(last)
      ensures old(lru)[0] in old(handles) && usage + old(handles)[old(lru)[0]].charge == old(usage)
    {
      hide Removed, Evicts;
      ghost var s := View();
      var oldest := lru[0];
      EraseOldestEvicts(s);
      BucketsAreUnique(table.list);
      assert NodeOf(oldest, handles[oldest]) in table.Contents();
      var found := table.Remove(handles[oldest].key, handles[oldest].hash);
      var erased := FinishErase(found, s);
    }

    method Prune() returns (ghost k: nat)
      requires Valid() && ValidMemory()
      modifies this, table
      ensures ValidMemory() && last == old(last) && Keeps(old(handles), handles)
      ensures Valid() && lru == [] && Evicts(old(View()), View(), k)
    {
      hide Inv, Evicts;
      ghost var s := View();
      k := 0;
      EvictsNone(s);
      while lru != []
        invariant Valid() && Evicts(s, View(), k) && last == old(last)
        decreases |lru|
      {
        ghost var t := View();
        EvictOldest();
        EvictsMore(s, t, View(), k);
        k := k + 1;
        EvictsShortens(t, View());
      }
      EvictionKeepsEntries(s, View(), k);
      KeepsMemory(s.handles, handles, last);
    }

    /** The entry is counted in, and the one of the same slot is erased. */
    method AddCached(h: Handle, ghost s0: Shard) returns (ghost n: Option<Node>)
      requires table.Valid() && Inv(s0) && h.refs == 0 && capacity > 0
      requires View() == s0.(nextId := s0.nextId + 1, clients := s0.clients + multiset{s0.nextId})
      modifies this`lru, this`inUse, this`handles, this`deleted, this`usage, table
      ensures Valid() && Adds(s0, h, capacity, n, View())
    {
      hide Inv, Removed, AfterErase, AfterUnref, Charges, Adds, Without;
      var e := nextId - 1;
      handles := handles[e := h.(inCache := true, refs := 2)];
      inUse := inUse + [e];
      usage := usage + h.charge;
      AddKeeps(s0, h);
      ghost var s := Added(s0, h);
      var node := Node(e, h.key, h.hash);
      NewIsNotInTable(s0, node);
      var replaced := table.Insert(node);
      WithoutOld(s0, h, replaced);
      assert View() == s.(contents := Without(s.contents, replaced));
      var _ := FinishErase(replaced, s);
      n := replaced;
      AddsCached(s0, h, capacity, n, View());
    }

    /** The first part of `Insert`: the entry is added and an entry of the same slot is erased. */
    method Add(key: Key, hash: nat, value: nat, charge: nat) returns (e: nat, ghost n: Option<Node>)
      requires Valid()
      modifies this, table
      ensures Valid() && e == old(nextId)
      ensures Adds(old(View()), Handle(key, hash, value, charge, false, 0), capacity, n, View()) && last == old(last)
    {
      hide Inv, Adds;
      ghost var s0 := View();
      e := nextId;
      nextId := nextId + 1;
      clients := clients + multiset{e};
      if capacity > 0 {
        n := AddCached(Handle(key, hash, value, charge, false, 0), s0);
      } else {
        n := None;
        handles := handles[e := Handle(key, hash, value, charge, false, 1)];
        AddsUncounted(s0, Handle(key, hash, value, charge, false, 0), View());
      }
    }

    /** Returns the new entry, held by the client.  `mid` is the state before the eviction of `k` entries, which goes
        on until the charges fit or no entry can be evicted, and no further. */
    method Insert(key: Key, hash: nat, value: nat, charge: nat)
        returns (e: nat, ghost n: Option<Node>, ghost mid: Shard, ghost k: nat)
      requires Valid() && ValidMemory()
      modifies this, table
      ensures Valid() && e == old(nextId)
      ensures Enters(old(handles), handles, e, Handle(key, hash, value, charge, false, 0), capacity) && e in clients
      ensures ValidMemory() && last == if capacity > 0 then old(last)[(key, hash) := value] else old(last)
      ensures Adds(old(View()), Handle(key, hash, value, charge, false, 0), capacity, n, mid)
      ensures Evicts(mid, View(), k)
      ensures usage <= capacity || lru == []
      ensures k > 0 ==> mid.lru[k - 1] in mid.handles && usage + mid.handles[mid.lru[k - 1]].charge > capacity
    {
      hide Inv, Evicts, Removed, Adds;
      ghost var s := View();
      ghost var h := Handle(key, hash, value, charge, false, 0);
      e, n := Add(key, hash, value, charge);
      mid := View();
      TableHasUniqueSlots();
      AddEnters(s, h, capacity, n, mid);
      NewIsClients(s, h, capacity, n, mid);
      k := 0;
      EvictsNone(mid);
      while usage > capacity && lru != []
        invariant Valid() && Evicts(mid, View(), k) && last == old(last)
        invariant k > 0 ==>
                  && k <= |mid.lru| && mid.lru[k - 1] in mid.handles
                  && usage + mid.handles[mid.lru[k - 1]].charge > capacity
        decreases |lru|
      {
        ghost var t := View();
        OldestOf(mid, t, k);
        EvictOldest();
        EvictsMore(mid, t, View(), k);
        k := k + 1;
        EvictsShortens(t, View());
      }
      EvictionLeaves(mid, View(), k, e);
      if capacity > 0 {
        last := last[(key, hash) := value];
      }
      MemoryOfNew(s.handles, mid.handles, handles, e, h, capacity, old(last));
    }

    lemma TableHasUniqueSlots()
      requires table.Valid()
      ensures UniqueSlots(View().contents)
    {
      BucketsAreUnique(table.list);
    }

    /** The destructor: no client may hold a cached entry. */
    method Destroy()
      requires Valid() && inUse == []
      modifies this
      ensures deleted == old(deleted) + old(lru)
      ensures old(clients) == multiset{} ==>
                handles == map[] && Distinct(deleted) && forall id: nat :: id in deleted <==> id < nextId
    {
      ghost var s := View();
      assert forall id :: id in s.lru ==> id in s.handles && s.handles[id].inCache && s.handles[id].refs == 1;
      assert forall i, j :: 0 <= i < j < |s.lru| ==> s.lru[i] != s.lru[j];
      hide Inv, Removed, NodeOf, Charges, AfterUnref;
      var list := lru;
      for i := 0 to |list|
        invariant lru == list == s.lru && nextId == s.nextId
        invariant deleted == s.deleted + list[..i] && handles == s.handles - IdsOf(list[..i])
      {
        var e := list[i];
        assert e !in list[..i] && e in s.lru;
        Forget(e);
        assert list[..i + 1] == list[..i] + [e];
        assert IdsOf(list[..i + 1]) == IdsOf(list[..i]) + {e};
      }
      assert list[..|list|] == list;
      AllDeleted(s);
    }

    /** The cache lets an entry go that it alone holds. */
    method Forget(e: nat)
      requires e in handles && handles[e].refs == 1
      modifies this`lru, this`inUse, this`handles, this`deleted
      ensures handles == old(handles) - {e} && deleted == old(deleted) + [e] && lru == old(lru)
    {
      ghost var before := handles;
      handles := handles[e := handles[e].(inCache := false)];
      hide Removed, AfterUnref;
      Unref(e);
      assert handles == before - {e};
    }
  }

  /** When clients hold nothing, the entries that are left are those on the LRU list. */
  lemma AllDeleted(s: Shard)
    requires Inv(s) && s.inUse == []
    ensures s.clients == multiset{} ==> s.handles - IdsOf(s.lru) == map[] && Distinct(s.deleted + s.lru)
                                        && forall id: nat :: id in s.deleted + s.lru <==> id < s.nextId
  {
    if s.clients == multiset{} {
      forall id | id in s.handles ensures id in s.lru {
        OnLists(s, id);
      }
      assert forall id :: id in s.lru ==> id !in s.deleted;
      ConcatDistinct(s.deleted, s.lru);
    }
  }

  /** What `Insert` does before it evicts: `n` is the entry of the same slot that is replaced, if any. */
  ghost predicate Adds(s: Shard, h: Handle, capacity: nat, n: Option<Node>, mid: Shard) {
    if capacity == 0 then n == None && mid == Uncounted(s, h) else
      match n
      case None => mid == Added(s, h) && forall m :: m in s.contents ==> !SameSlot(m, h.key, h.hash)
      case Some(m) =>
        && m in s.contents && SameSlot(m, h.key, h.hash)
        && var s' := Added(s, h);
           m.id in s'.handles && s'.handles[m.id].refs > 0 && s'.handles[m.id].charge <= s'.usage
               && mid == AfterErase(s', m.id)
  }

  lemma AddsCached(s: Shard, h: Handle, capacity: nat, n: Option<Node>, mid: Shard)
    requires capacity > 0
    requires match n
             case None => mid == Added(s, h) && forall m :: m in s.contents ==> !SameSlot(m, h.key, h.hash)
             case Some(m) =>
               && m in s.contents && SameSlot(m, h.key, h.hash)
               && var s' := Added(s, h);
                  m.id in s'.handles && s'.handles[m.id].refs > 0 && s'.handles[m.id].charge <= s'.usage
                  && mid == AfterErase(s', m.id)
    ensures Adds(s, h, capacity, n, mid)
  {
  }

  lemma AddsUncounted(s: Shard, h: Handle, mid: Shard)
    requires Inv(s) && h.refs == 0 && !h.inCache && mid == Uncounted(s, h)
    ensures Adds(s, h, 0, None, mid) && Inv(mid)
  {
    hide Inv;
    UncountedKeeps(s, h);
  }

  /** A client holds the new entry, so it is not evicted. */
  lemma NewIsClients(s: Shard, h: Handle, capacity: nat, n: Option<Node>, mid: Shard)
    requires Inv(s) && Inv(mid) && Adds(s, h, capacity, n, mid)
    ensures s.nextId in mid.clients && s.nextId !in mid.lru
  {
    hide Removed, Charges;
    ClientsHold(mid, s.nextId);
  }

  lemma ClientsHold(s: Shard, id: nat)
    requires Inv(s)
    ensures id in s.clients ==> id !in s.lru
  {
  }

  lemma EvictionLeaves(s: Shard, t: Shard, k: nat, e: nat)
    requires Evicts(s, t, k) && e !in s.lru && e in s.handles && e in s.clients
    ensures e in t.handles && t.handles[e] == s.handles[e] && Keeps(s.handles, t.handles) && e in t.clients
    ensures forall id :: id in t.handles ==> id in s.handles && t.handles[id] == s.handles[id]
  {
  }

  /** The memory after an insertion and the evictions that follow. */
  lemma MemoryOfNew(a: map<nat, Handle>, mid: map<nat, Handle>, b: map<nat, Handle>, e: nat, h: Handle, capacity: nat,
                    last: Memory)
    requires Enters(a, mid, e, h, capacity) && Keeps(mid, b) && e in b && b[e] == mid[e] && Remembers(a, last)
    requires forall id :: id in b ==> id in mid && b[id] == mid[id]
    ensures Enters(a, b, e, h, capacity)
    ensures Remembers(b, if capacity > 0 then last[(h.key, h.hash) := h.value] else last)
  {
  }

  lemma NewIsNotInTable(s: Shard, n: Node)
    requires Inv(s) && n.id == s.nextId
    ensures n !in s.contents
  {
  }

  /** The table after the new entry has taken the place of the old one. */
  lemma WithoutOld(s: Shard, h: Handle, replaced: Option<Node>)
    requires Inv(s) && (replaced.Some? ==> replaced.value in s.contents)
    ensures Without(s.contents, replaced) + {NodeOf(s.nextId, h)} == Without(Added(s, h).contents, replaced)
  {
    NewIsNotInTable(s, NodeOf(s.nextId, h));
  }

  lemma OldestOf(s: Shard, t: Shard, k: nat)
    requires Evicts(s, t, k) && Inv(t) && t.lru != []
    ensures k < |s.lru| && s.lru[k] == t.lru[0] && t.lru[0] in t.handles && t.lru[0] in s.handles
    ensures s.handles[t.lru[0]] == t.handles[t.lru[0]]
  {
    assert t.lru[0] in t.lru;
  }
}
