/** The runs behind an iterator over the store (`NewInternalIterator` in db/db_impl.cc, `AddIterators` in
    db/version_set.cc): they hold exactly the entries of the store, each in one run. */
module StoreIterators {
  import opened InternalKeys
  import opened MultiVersion
  import opened Levels
  import opened CompactionInputs
  import opened CompactionRun
  import opened Merging
  import opened StoreSteps
  import opened TwoLevel

  /** The levels from 1 up to `n` that have files. */
  function LevelsInUse(v: Version, n: nat): seq<nat>
    requires n <= |v|
  {
    if n <= 1 then [] else LevelsInUse(v, n - 1) + if v[n - 1] == [] then [] else [n - 1]
  }

  /** The list ascends, and it holds the levels in use and no others. */
  ghost predicate AreInUse(v: Version, n: nat, ls: seq<nat>)
    requires n <= |v|
  {
    && (forall i :: 0 <= i < |ls| ==> 1 <= ls[i] < n)
    && (forall i, j :: 0 <= i < j < |ls| ==> ls[i] < ls[j])
    && (forall l :: 1 <= l < n && v[l] != [] ==> l in ls)
  }

  lemma {:induction false} LevelsInUseAre(v: Version, n: nat)
    requires n <= |v|
    ensures AreInUse(v, n, LevelsInUse(v, n))
  {
    hide AreInUse;
    if n <= 1 {
      NoneInUse(v, n);
    } else {
      LevelsInUseAre(v, n - 1);
      OneMoreInUse(v, n, LevelsInUse(v, n - 1));
    }
  }

  lemma NoneInUse(v: Version, n: nat)
    requires n <= 1 && n <= |v|
    ensures AreInUse(v, n, [])
  {
  }

  lemma OneMoreInUse(v: Version, n: nat, ls: seq<nat>)
    requires 1 < n <= |v| && AreInUse(v, n - 1, ls)
    ensures AreInUse(v, n, ls + if v[n - 1] == [] then [] else [n - 1])
  {
    var all := ls + if v[n - 1] == [] then [] else [n - 1];
    forall l | 1 <= l < n && v[l] != [] ensures l in all {
      assert l < n - 1 ==> l in ls;
      assert l == n - 1 ==> all[|ls|] == l;
    }
  }

  /** `AddIterators`: one run for each level-0 file, one concatenated run for each other level. */
  function VersionRuns(v: Version): seq<seq<Entry>>
    requires |v| == NUM_LEVELS
  {
    LevelsInUseAre(v, |v|);
    var ls := LevelsInUse(v, |v|);
    seq(|v[0]|, i requires 0 <= i < |v[0]| => v[0][i].entries)
    + seq(|ls|, i requires 0 <= i < |ls| => Concat(v[ls[i]]))
  }

  /** A concatenating iterator: an index of the largest keys of the files of a level walks over their concatenation. */
  lemma LevelIsIndexed(fs: seq<FileMeta>, index: seq<Entry>, block: BlockFunction)
    requires ValidFiles(fs) && Disjoint(fs) && |index| == |fs|
    requires forall i :: 0 <= i < |fs| ==> index[i].key == fs[i].largest && BlockAt(index, block, i) == fs[i].entries
    ensures IsIndex(index, block) && Flat(index, block, |index|) == Concat(fs)
  {
    hide ValidFiles, Disjoint, SortedEntries, Concat, Flat, BlockAt;
    forall i, j | 0 <= i < j < |index| ensures Before(index[i].key, index[j].key) {
      InOrder(fs, i, j);
    }
    forall i | 0 <= i < |index| ensures SortedKeys(BlockAt(index, block, i)) {
      FileIsSorted(fs, i);
      SortedByBoth(fs[i].entries);
    }
    forall i, e | 0 <= i < |index| && e in BlockAt(index, block, i)
      ensures AtOrBefore(e.key, index[i].key) && AtOrBefore(fs[i].smallest, e.key)
    {
      FileIsValid(fs, i);
      FileBounds(fs[i], e);
    }
    forall i, j, e | 0 <= i < j < |index| && e in BlockAt(index, block, j) ensures Before(index[i].key, e.key) {
      InOrder(fs, i, j);
      BeforeIsStrictTotalOrder(index[i].key, fs[j].smallest, e.key);
    }
    FlatIsConcat(fs, index, block, |fs|);
    assert fs[..|fs|] == fs;
  }

  lemma FileIsValid(fs: seq<FileMeta>, i: nat)
    requires ValidFiles(fs) && i < |fs|
    ensures ValidFile(fs[i])
  {
  }

  lemma {:induction false} FlatIsConcat(fs: seq<FileMeta>, index: seq<Entry>, block: BlockFunction, n: nat)
    requires n <= |fs| == |index|
    requires forall i :: 0 <= i < |fs| ==> BlockAt(index, block, i) == fs[i].entries
    ensures Flat(index, block, n) == Concat(fs[..n])
  {
    if n > 0 {
      FlatIsConcat(fs, index, block, n - 1);
      assert fs[..n][..n - 1] == fs[..n - 1];
    }
  }

  /** The runs of `NewInternalIterator`. */
  function StoreRuns(mem: seq<Entry>, imm: Immutable, v: Version): seq<seq<Entry>>
    requires |v| == NUM_LEVELS
  {
    [mem] + (if imm.Table? then [imm.entries] else []) + VersionRuns(v)
  }

  lemma LevelIsValid(v: Version, l: nat)
    requires ValidVersion(v) && 1 <= l < |v|
    ensures ValidFiles(v[l]) && Disjoint(v[l])
  {
  }

  /** The place of an entry of a run; different runs are different places. */
  lemma RunPlace(v: Version, i: nat, e: Entry) returns (l: nat, f: FileMeta)
    requires ValidVersion(v) && i < |VersionRuns(v)| && e in VersionRuns(v)[i]
    ensures OnLevel(v, l, f, e)
    ensures i < |v[0]| ==> l == 0 && f == v[0][i]
    ensures i >= |v[0]| ==> l > 0 && i - |v[0]| < |LevelsInUse(v, |v|)| && l == LevelsInUse(v, |v|)[i - |v[0]|]
  {
    hide Concat, ValidVersion;
    ValidIsWellFormed(v);
    LevelsInUseAre(v, |v|);
    if i < |v[0]| {
      l, f := 0, v[0][i];
    } else {
      l := LevelsInUse(v, |v|)[i - |v[0]|];
      LevelIsValid(v, l);
      ConcatIsSorted(v[l]);
      f :| f in v[l] && e in f.entries;
    }
  }

  lemma VersionRunsAreSorted(v: Version)
    requires ValidVersion(v)
    ensures forall i :: 0 <= i < |VersionRuns(v)| ==> SortedEntries(VersionRuns(v)[i])
  {
    hide Concat, SortedEntries, Disjoint;
    LevelsInUseAre(v, |v|);
    forall i | 0 <= i < |VersionRuns(v)| ensures SortedEntries(VersionRuns(v)[i]) {
      if i < |v[0]| {
        FileIsSorted(v[0], i);
      } else {
        var l := LevelsInUse(v, |v|)[i - |v[0]|];
        LevelIsValid(v, l);
        ConcatIsSorted(v[l]);
      }
    }
  }

  lemma VersionRunsDiffer(v: Version, i: nat, j: nat, a: Entry, b: Entry)
    requires ValidVersion(v) && i < |VersionRuns(v)| && j < |VersionRuns(v)| && i != j
    requires a in VersionRuns(v)[i] && b in VersionRuns(v)[j]
    ensures a.key != b.key
  {
    hide VersionRuns, Layered, DistinctNumbers;
    var l, f := RunPlace(v, i, a);
    var m, g := RunPlace(v, j, b);
    LevelsInUseAre(v, |v|);
    if a.key == b.key {
      OneHome(v, l, f, a, m, g, b);
      SortedHasNoDuplicates(v[0]);
    }
  }

  lemma VersionRunsHold(v: Version, e: Entry)
    requires ValidVersion(v)
    ensures e in AllEntries(v) <==> exists i :: 0 <= i < |VersionRuns(v)| && e in VersionRuns(v)[i]
  {
    hide ValidVersion, AllEntries, Concat;
    ValidIsWellFormed(v);
    LevelsInUseAre(v, |v|);
    if e in AllEntries(v) {
      var l, f := Locate(v, e);
      if l == 0 {
        var i :| 0 <= i < |v[0]| && v[0][i] == f;
        assert VersionRuns(v)[i] == f.entries;
      } else {
        var ls := LevelsInUse(v, |v|);
        var i :| 0 <= i < |ls| && ls[i] == l;
        LevelIsValid(v, l);
        ConcatIsSorted(v[l]);
        assert VersionRuns(v)[|v[0]| + i] == Concat(v[l]);
      }
    }
    if i :| 0 <= i < |VersionRuns(v)| && e in VersionRuns(v)[i] {
      var l, f := RunPlace(v, i, e);
      Located(v, l, f, e);
    }
  }

  // ----- the whole store -----

  /** How many runs stand before those of the version. */
  function TableCount(imm: Immutable): nat {
    if imm.Table? then 2 else 1
  }

  lemma StoreIsOrdered(a: State)
    requires Valid(a)
    ensures ValidVersion(a.current) && |a.current| == NUM_LEVELS && SortedEntries(a.mem)
    ensures a.imm.Table? ==> SortedEntries(a.imm.entries)
    ensures NewerThan(EntrySet(a.mem), ImmSet(a.imm)) && NewerThan(Tables(a), AllEntries(a.current))
    ensures Unique(Store(a))
  {
    hide SortedEntries, NewerThan, AllEntries, Unique;
    UniqueSubset(Store(a), a.history);
  }

  lemma StoreRunsAreSorted(a: State)
    requires Valid(a)
    ensures |a.current| == NUM_LEVELS
    ensures var runs := StoreRuns(a.mem, a.imm, a.current); forall i :: 0 <= i < |runs| ==> SortedKeys(runs[i])
  {
    hide Valid, ValidVersion, SortedEntries, SortedKeys, VersionRuns;
    StoreIsOrdered(a);
    VersionRunsAreSorted(a.current);
    var runs := StoreRuns(a.mem, a.imm, a.current);
    forall i | 0 <= i < |runs| ensures SortedKeys(runs[i]) {
      SortedByBoth(runs[i]);
    }
  }

  /** The run of a memtable, or an entry of the version. */
  lemma StoreRunIs(a: State, i: nat, e: Entry)
    requires Valid(a) && |a.current| == NUM_LEVELS
    requires i < |StoreRuns(a.mem, a.imm, a.current)| && e in StoreRuns(a.mem, a.imm, a.current)[i]
    ensures i == 0 ==> e in EntrySet(a.mem)
    ensures i == 1 && a.imm.Table? ==> e in ImmSet(a.imm)
    ensures i < TableCount(a.imm) ==> e in Tables(a)
    ensures i >= TableCount(a.imm) ==>
              && i - TableCount(a.imm) < |VersionRuns(a.current)|
              && e in VersionRuns(a.current)[i - TableCount(a.imm)] && e in AllEntries(a.current)
  {
    hide Valid, AllEntries, VersionRuns;
    StoreIsOrdered(a);
    VersionRunsHold(a.current, e);
  }

  lemma StoreRunsAreDistinct(a: State)
    requires Valid(a)
    ensures |a.current| == NUM_LEVELS && DistinctKeys(StoreRuns(a.mem, a.imm, a.current))
  {
    hide Valid, ValidVersion, StoreRuns, Tables, EntrySet, ImmSet, AllEntries, VersionRuns;
    StoreIsOrdered(a);
    var runs := StoreRuns(a.mem, a.imm, a.current);
    forall i, j, x: Entry, y: Entry | 0 <= i < |runs| && 0 <= j < |runs| && i != j && x in runs[i] && y in runs[j]
      ensures x.key != y.key
    {
      StoreRunIs(a, i, x);
      StoreRunIs(a, j, y);
      var n := TableCount(a.imm);
      if i >= n && j >= n {
        VersionRunsDiffer(a.current, i - n, j - n, x, y);
      }
    }
  }

  lemma StoreRunsHold(a: State, merged: seq<Entry>)
    requires Valid(a) && |a.current| == NUM_LEVELS && IsUnion(StoreRuns(a.mem, a.imm, a.current), merged)
    ensures EntrySet(merged) == Store(a) && SortedEntries(merged)
  {
    hide Valid, ValidVersion, AllEntries, VersionRuns, SortedKeys;
    StoreIsOrdered(a);
    var runs, n := StoreRuns(a.mem, a.imm, a.current), TableCount(a.imm);
    forall e ensures e in EntrySet(merged) <==> e in Store(a) {
      VersionRunsHold(a.current, e);
      if e in merged {
        var i :| 0 <= i < |runs| && e in runs[i];
        StoreRunIs(a, i, e);
      }
      if e in AllEntries(a.current) {
        var i :| 0 <= i < |VersionRuns(a.current)| && e in VersionRuns(a.current)[i];
        assert e in runs[n + i];
      }
      assert e in a.mem ==> e in runs[0];
      assert a.imm.Table? && e in a.imm.entries ==> e in runs[1];
    }
    MergedIsSorted(merged);
  }
}
