/** Point lookup in a version (`FindFile`, `Version::Get` in db/version_set.cc). */
module VersionGet {
  import opened InternalKeys
  import opened MultiVersion
  import opened Levels

  /** `FindFile`: the first file whose largest key is at or after `key`, by binary search. */
  method FindFile(files: seq<FileMeta>, key: InternalKey) returns (right: nat)
    requires ValidFiles(files) && Disjoint(files)
    ensures right <= |files|
    ensures forall i :: 0 <= i < right ==> Before(files[i].largest, key)
    ensures forall i :: right <= i < |files| ==> AtOrBefore(key, files[i].largest)
  {
    var left := 0;
    right := |files|;
    while left < right
      invariant 0 <= left <= right <= |files|
      invariant forall i :: 0 <= i < left ==> Before(files[i].largest, key)
      invariant forall i :: right <= i < |files| ==> AtOrBefore(key, files[i].largest)
    {
      var mid := (left + right) / 2;
      forall i | 0 <= i < |files|
        ensures i <= mid ==> AtOrBefore(files[i].largest, files[mid].largest)
        ensures mid <= i ==> AtOrBefore(files[mid].largest, files[i].largest)
      {
        LargestAscends(files, i, mid);
      }
      BeforeIsStrictTotalOrder(files[mid].largest, key, key);
      if Before(files[mid].largest, key) {
        left := mid + 1;
      } else {
        right := mid;
      }
    }
  }

  lemma LargestAscends(files: seq<FileMeta>, i: int, j: int)
    requires ValidFiles(files) && Disjoint(files)
    requires 0 <= i < |files| && 0 <= j < |files|
    ensures i <= j ==> AtOrBefore(files[i].largest, files[j].largest)
    ensures j <= i ==> AtOrBefore(files[j].largest, files[i].largest)
  {
    var f, g := files[i], files[j];
    assert ValidFile(f) && ValidFile(g);
    FileBounds(f, f.entries[|f.entries| - 1]);
    FileBounds(g, g.entries[|g.entries| - 1]);
  }

  /** Seek in a sorted run (a table or a memtable) and compare the user key of the entry found. */
  method SearchRun(es: seq<Entry>, user: UserKey, snapshot: nat) returns (found: bool, index: nat)
    requires SortedEntries(es)
    ensures found ==> index < |es| && Newest(EntrySet(es), user, snapshot, es[index])
    ensures !found ==> forall x :: x in es ==> !(x.key.user == user && x.key.sequence <= snapshot)
  {
    index := 0;
    while index < |es| && Before(es[index].key, SeekKey(user, snapshot))
      invariant 0 <= index <= |es|
      invariant forall j :: 0 <= j < index ==> Before(es[j].key, SeekKey(user, snapshot))
    {
      index := index + 1;
    }
    forall j | 0 <= j < |es|
      ensures j < index ==> !(es[j].key.user == user && es[j].key.sequence <= snapshot)
      ensures index == j ==> es[j].key.user >= user && (es[j].key.user == user ==> es[j].key.sequence <= snapshot)
    {
      SeekKeySplits(user, snapshot, es[j].key);
    }
    found := index < |es| && es[index].key.user == user;
  }

  /** `TableCache::Get` with `SaveValue`. */
  method TableGet(f: FileMeta, user: UserKey, snapshot: nat) returns (found: bool, e: Entry)
    requires ValidFile(f)
    ensures found ==> Newest(EntrySet(f.entries), user, snapshot, e)
    ensures !found ==> forall x :: x in f.entries ==> !(x.key.user == user && x.key.sequence <= snapshot)
  {
    var index: nat;
    found, index := SearchRun(f.entries, user, snapshot);
    e := if found then f.entries[index] else f.entries[0];
  }

  /** `std::sort(..., NewestFirst)`. */
  method SortNewestFirst(files: seq<FileMeta>) returns (sorted: seq<FileMeta>)
    ensures forall f :: f in sorted <==> f in files
    ensures forall i, j :: 0 <= i < j < |sorted| ==> sorted[i].number >= sorted[j].number
  {
    sorted := [];
    for n := 0 to |files|
      invariant forall f :: f in sorted <==> f in files[..n]
      invariant forall i, j :: 0 <= i < j < |sorted| ==> sorted[i].number >= sorted[j].number
    {
      var k := 0;
      while k < |sorted| && sorted[k].number > files[n].number
        invariant 0 <= k <= |sorted|
        invariant forall i :: 0 <= i < k ==> sorted[i].number > files[n].number
      {
        k := k + 1;
      }
      var next := sorted[..k] + [files[n]] + sorted[k..];
      assert forall f :: f in next <==> f in sorted || f == files[n];
      assert files[..n + 1] == files[..n] + [files[n]];
      sorted := next;
    }
    assert files[..|files|] == files;
  }

  /** What the files chosen on one level must satisfy: nothing a read could need is left out, and the
      search order is newest first. */
  ghost predicate Complete(fs: seq<FileMeta>, user: UserKey, s: nat, chosen: seq<FileMeta>) {
    && (forall f :: f in chosen ==> f in fs)
    && (forall f, e :: f in fs && e in f.entries && e.key.user == user && e.key.sequence <= s ==>
          f in chosen || Superseded(chosen, user, s, e))
  }

  ghost predicate Superseded(chosen: seq<FileMeta>, user: UserKey, s: nat, e: Entry) {
    exists g, x :: g in chosen && x in g.entries && x.key.user == user && e.key.sequence < x.key.sequence <= s
  }

  /** First half of the level loop of `Version::Get`: the files to search on one level. */
  method FilesToSearch(v: Version, level: nat, user: UserKey, snapshot: nat) returns (chosen: seq<FileMeta>)
    requires ValidVersion(v) && level < NUM_LEVELS
    ensures Complete(v[level], user, snapshot, chosen)
    ensures level == 0 ==> forall i, j :: 0 <= i < j < |chosen| ==> chosen[i].number >= chosen[j].number
    ensures level > 0 ==> |chosen| <= 1
  {
    var files := v[level];
    if level == 0 {
      var tmp := [];
      for i := 0 to |files|
        invariant forall f :: f in tmp <==> f in files[..i] && f.smallest.user <= user <= f.largest.user
      {
        assert files[..i + 1] == files[..i] + [files[i]];
        if user >= files[i].smallest.user && user <= files[i].largest.user {
          tmp := tmp + [files[i]];
        }
      }
      assert files[..|files|] == files;
      chosen := SortNewestFirst(tmp);
      forall f, e | f in files && e in f.entries && e.key.user == user ensures f in chosen {
        FileBounds(f, e);
      }
    } else {
      var index := FindFile(files, SeekKey(user, snapshot));
      if index >= |files| || user < files[index].smallest.user {
        chosen := [];
      } else {
        chosen := [files[index]];
      }
      forall f, e | f in files && e in f.entries && e.key.user == user && e.key.sequence <= snapshot
        ensures f in chosen || Superseded(chosen, user, snapshot, e)
      {
        var i :| 0 <= i < |files| && files[i] == f;
        OneProbeSuffices(files, user, snapshot, index, i, e);
      }
    }
  }

  /** On a disjoint level the probed file holds the newest visible entry, even when the user key continues in
      the files after it. */
  lemma OneProbeSuffices(files: seq<FileMeta>, user: UserKey, s: nat, index: nat, i: nat, e: Entry)
    requires ValidFiles(files) && Disjoint(files)
    requires index <= |files|
    requires forall k :: 0 <= k < index ==> Before(files[k].largest, SeekKey(user, s))
    requires forall k :: index <= k < |files| ==> AtOrBefore(SeekKey(user, s), files[k].largest)
    requires i < |files| && e in files[i].entries && e.key.user == user && e.key.sequence <= s
    ensures index <= i && index < |files| && files[index].smallest.user <= user
    ensures i != index ==> Superseded([files[index]], user, s, e)
  {
    FileBounds(files[i], e);
    SeekKeySplits(user, s, files[i].largest);
    if i != index {
      var g := files[index];
      assert ValidFile(g);
      var x := g.entries[|g.entries| - 1];
      FileBounds(g, x);
      SeekKeySplits(user, s, g.largest);
      assert Ahead(g.largest, files[i].smallest);
      assert g in [g] && x in g.entries;
    }
  }

  /** `Version::Get` refines the flat map: level by level, newest place first, stopping at the first hit. */
  method Get(v: Version, user: UserKey, snapshot: nat) returns (r: Lookup)
    requires ValidVersion(v)
    ensures r == Read(AllEntries(v), user, snapshot)
  {
    for level := 0 to NUM_LEVELS
      invariant forall l, f, e :: OnLevel(v, l, f, e) && l < level && e.key.user == user ==> e.key.sequence > snapshot
    {
      var files := FilesToSearch(v, level, user, snapshot);
      for i := 0 to |files|
        invariant forall j, e :: 0 <= j < i && e in files[j].entries && e.key.user == user ==> e.key.sequence > snapshot
      {
        var found, e := TableGet(files[i], user, snapshot);
        if found {
          FirstHitIsNewest(v, user, snapshot, level, files, i, e);
          return ResultOf(e);
        }
      }
    }
    forall e ensures !Covers(AllEntries(v), user, snapshot, e) {
      if e in AllEntries(v) {
        var l, f := Locate(v, e);
      }
    }
    ReadMissing(AllEntries(v), user, snapshot);
    return Missing;
  }

  lemma FirstHitIsNewest(v: Version, user: UserKey, s: nat, level: nat, files: seq<FileMeta>, i: nat, e: Entry)
    requires ValidVersion(v) && level < NUM_LEVELS
    requires Complete(v[level], user, s, files)
    requires level == 0 ==> forall j, k :: 0 <= j < k < |files| ==> files[j].number >= files[k].number
    requires level > 0 ==> |files| <= 1
    requires forall l, f, x :: OnLevel(v, l, f, x) && l < level && x.key.user == user ==> x.key.sequence > s
    requires i < |files|
    requires forall j, x :: 0 <= j < i && x in files[j].entries && x.key.user == user ==> x.key.sequence > s
    requires Newest(EntrySet(files[i].entries), user, s, e)
    ensures Read(AllEntries(v), user, s) == ResultOf(e)
  {
    var S := AllEntries(v);
    assert Covers(EntrySet(files[i].entries), user, s, e);
    assert OnLevel(v, level, files[i], e);
    Located(v, level, files[i], e);
    forall x | Covers(S, user, s, x) ensures x.key.sequence <= e.key.sequence {
      var m, g := Locate(v, x);
      ElsewhereIsOlder(v, user, s, level, files, i, e, m, g, x);
    }
    EntriesAreUnique(v);
    ReadIs(S, user, s, e);
  }

  lemma ElsewhereIsOlder(v: Version, user: UserKey, s: nat, level: nat, files: seq<FileMeta>, i: nat, e: Entry, m: int,
                         g: FileMeta, x: Entry)
    requires ValidVersion(v) && level < NUM_LEVELS
    requires Complete(v[level], user, s, files)
    requires level == 0 ==> forall j, k :: 0 <= j < k < |files| ==> files[j].number >= files[k].number
    requires level > 0 ==> |files| <= 1
    requires i < |files|
    requires forall j, y :: 0 <= j < i && y in files[j].entries && y.key.user == user ==> y.key.sequence > s
    requires Newest(EntrySet(files[i].entries), user, s, e)
    requires OnLevel(v, m, g, x) && level <= m && x.key.user == user && x.key.sequence <= s
    ensures x.key.sequence <= e.key.sequence
  {
    assert Covers(EntrySet(files[i].entries), user, s, e);
    if m > level {
      assert OnLevel(v, level, files[i], e) && Shallower(level, files[i], m, g);
    } else if g in files {
      InChosenIsOlder(v, user, s, level, files, i, e, g, x);
    } else {
      var h, y :| h in files && y in h.entries && y.key.user == user && x.key.sequence < y.key.sequence <= s;
      InChosenIsOlder(v, user, s, level, files, i, e, h, y);
    }
  }

  lemma InChosenIsOlder(v: Version, user: UserKey, s: nat, level: nat, files: seq<FileMeta>, i: nat, e: Entry,
                        g: FileMeta, x: Entry)
    requires ValidVersion(v) && level < NUM_LEVELS
    requires forall f :: f in files ==> f in v[level]
    requires level == 0 ==> forall j, k :: 0 <= j < k < |files| ==> files[j].number >= files[k].number
    requires level > 0 ==> |files| <= 1
    requires i < |files|
    requires forall j, y :: 0 <= j < i && y in files[j].entries && y.key.user == user ==> y.key.sequence > s
    requires Newest(EntrySet(files[i].entries), user, s, e)
    requires g in files && x in g.entries && x.key.user == user && x.key.sequence <= s
    ensures x.key.sequence <= e.key.sequence
  {
    var F := EntrySet(files[i].entries);
    assert Covers(F, user, s, e);
    var j :| 0 <= j < |files| && files[j] == g;
    if g == files[i] {
      assert Covers(F, user, s, x);
    } else {
      assert i < j && level == 0;
      assert OnLevel(v, 0, files[i], e) && OnLevel(v, 0, g, x);
      assert files[i].number != g.number;
      assert Shallower(0, files[i], 0, g);
    }
  }
}
