/** The database object (`DBImpl` in db/db_impl.cc): each method performs one step of the state machine. */
module Database {
  import opened InternalKeys
  import opened MultiVersion
  import opened Levels
  import opened InputSelection
  import opened CompactionInputs
  import opened Compactions
  import opened Merging
  import opened CompactionSafety
  import opened CompactionRun
  import opened Flush
  import opened StoreSteps
  import opened VersionBuilder
  import opened DbIterator
  import opened StoreIterators
  import VersionGet

  // ----- version edits -----

  function DeletionsOf(level: nat, files: seq<FileMeta>): seq<(nat, nat)> {
    seq(|files|, i requires 0 <= i < |files| => (level, files[i].number))
  }

  function AdditionsOf(level: nat, files: seq<FileMeta>): seq<(nat, FileMeta)> {
    seq(|files|, i requires 0 <= i < |files| => (level, files[i]))
  }

  /** `AddInputDeletions` followed by the additions of `InstallCompactionResults`. */
  function CompactionEdit(level: nat, in0: seq<FileMeta>, in1: seq<FileMeta>, out: seq<FileMeta>): VersionEdit {
    FileEdit(DeletionsOf(level, in0) + DeletionsOf(level + 1, in1), AdditionsOf(level + 1, out))
  }

  lemma EditContents(level: nat, in0: seq<FileMeta>, in1: seq<FileMeta>, out: seq<FileMeta>, l: nat)
    ensures var edit := CompactionEdit(level, in0, in1, out);
            && AddedAt(edit, l) == (if l == level + 1 then Members(out) else {})
            && DeletedAt(edit, l) == (if l == level then NumbersOf(Members(in0))
                                      else if l == level + 1 then NumbersOf(Members(in1)) else {})
  {
    var edit := CompactionEdit(level, in0, in1, out);
    forall f | f in out ensures (level + 1, f) in edit.newFiles {
      var i :| 0 <= i < |out| && out[i] == f;
      assert edit.newFiles[i] == (level + 1, f);
    }
    forall f | f in in0 ensures (level, f.number) in edit.deletedFiles {
      var i :| 0 <= i < |in0| && in0[i] == f;
      assert edit.deletedFiles[i] == (level, f.number);
    }
    forall f | f in in1 ensures (level + 1, f.number) in edit.deletedFiles {
      var i :| 0 <= i < |in1| && in1[i] == f;
      assert edit.deletedFiles[|in0| + i] == (level + 1, f.number);
    }
    forall n | n in DeletedAt(edit, l)
      ensures n in (if l == level then NumbersOf(Members(in0)) else if l == level + 1 then NumbersOf(Members(in1))
                    else {})
    {
      var i :| 0 <= i < |edit.deletedFiles| && edit.deletedFiles[i] == (l, n);
      if i < |in0| {
        assert in0[i] in Members(in0);
      } else {
        assert in1[i - |in0|] in Members(in1);
      }
    }
  }

  /** Output numbers differ from each other and from every number on the output level. */
  ghost predicate NumbersFit(v: Version, level: nat, out: seq<FileMeta>) {
    && level + 1 < |v|
    && (forall i, j :: 0 <= i < j < |out| ==> out[i].number != out[j].number)
    && (forall f, g :: f in v[level + 1] && g in out ==> f.number != g.number)
  }

  lemma CompactionEditFits(v: Version, level: nat, in0: seq<FileMeta>, in1: seq<FileMeta>, out: seq<FileMeta>)
    requires WellFormed(v) && level + 1 < NUM_LEVELS && NumbersFit(v, level, out)
    ensures CanApply(v, CompactionEdit(level, in0, in1, out))
  {
    var edit := CompactionEdit(level, in0, in1, out);
    LevelsAreSorted(v);
    hide WellFormed, SortedBySmallest, AddedAt, DeletedAt;
    forall l, f, g | 0 <= l < NUM_LEVELS && f in v[l] && g in AddedAt(edit, l) ensures f.number != g.number {
      EditContents(level, in0, in1, out, l);
    }
  }

  /** `LogAndApply` of a compaction edit replaces the inputs by the outputs. */
  method InstallEdit(v: Version, level: nat, in0: seq<FileMeta>, in1: seq<FileMeta>, out: seq<FileMeta>)
      returns (w: Version)
    requires ValidVersion(v) && Selected(v, level, in0, in1) && NumbersFit(v, level, out)
    ensures Replaces(v, level, in0, in1, out, w)
  {
    hide ValidVersion, WellFormed, Selected, NumbersFit, CanApply, IsEdited, CompactionEdit, Replaces;
    ValidIsWellFormed(v);
    SelectedShape(v, level, in0, in1);
    CompactionEditFits(v, level, in0, in1, out);
    w := LogAndApply(v, CompactionEdit(level, in0, in1, out));
    EditReplaces(v, level, in0, in1, out, w);
  }

  lemma EditReplaces(v: Version, level: nat, in0: seq<FileMeta>, in1: seq<FileMeta>, out: seq<FileMeta>, w: Version)
    requires ValidVersion(v) && Selected(v, level, in0, in1) && IsEdited(v, CompactionEdit(level, in0, in1, out), w)
    requires NumbersFit(v, level, out)
    ensures Replaces(v, level, in0, in1, out, w)
  {
    hide WellFormed, Selected, SortedBySmallest, Layered, AddedAt, DeletedAt, CompactionEdit, NumbersOf, Members,
         NumbersFit;
    SelectedMembers(v, level, in0, in1);
    LevelsAreSorted(v);
    forall l | 0 <= l < |v| ensures SortedBySmallest(w[l]) {
    }
    forall l | 0 <= l < |v| && l != level && l != level + 1 ensures w[l] == v[l] {
      EditContents(level, in0, in1, out, l);
      SortedIsUnique(w[l], v[l]);
    }
    EditContents(level, in0, in1, out, level);
    NumbersIdentify(v, level, in0);
    EditContents(level, in0, in1, out, level + 1);
    NumbersIdentify(v, level + 1, in1);
    OutputsStay(v, level, out);
  }

  /** On one level of a valid version a number names one file. */
  lemma NumbersIdentify(v: Version, l: nat, files: seq<FileMeta>)
    requires DistinctNumbers(v) && l < |v| && forall f :: f in files ==> f in v[l]
    ensures forall f :: f in v[l] ==> (f.number in NumbersOf(Members(files)) <==> f in files)
  {
    forall f | f in v[l] ensures f.number in NumbersOf(Members(files)) <==> f in files {
      if f.number in NumbersOf(Members(files)) {
        var g :| g in Members(files) && g.number == f.number;
        assert g == f;
      }
      if f in files {
        assert f in Members(files);
      }
    }
  }

  lemma OutputsStay(v: Version, level: nat, out: seq<FileMeta>)
    requires NumbersFit(v, level, out)
    ensures NumbersOf({}) == {}
    ensures forall f :: f in Members(out) <==> f in out
    ensures forall f :: f in out ==> f.number in NumbersOf(Members(out))
    ensures forall f :: f in v[level + 1] ==> f.number !in NumbersOf(Members(out))
  {
    forall f | f in out ensures f.number in NumbersOf(Members(out)) {
      assert f in Members(out);
    }
  }

  // ----- memtables -----

  /** `MemTable::Add` on the sorted run that the skip list holds. */
  method MemTableAdd(table: seq<Entry>, e: Entry) returns (r: seq<Entry>)
    requires SortedEntries(table)
    requires forall x :: x in table ==> x.key.sequence < e.key.sequence
    ensures SortedEntries(r)
    ensures EntrySet(r) == EntrySet(table) + {e}
  {
    var k := 0;
    while k < |table| && Before(table[k].key, e.key)
      invariant 0 <= k <= |table|
      invariant forall i :: 0 <= i < k ==> Before(table[i].key, e.key)
    {
      k := k + 1;
    }
    r := table[..k] + [e] + table[k..];
    forall i | 0 <= i < |table| ensures if i < k then Ahead(table[i].key, e.key) else Ahead(e.key, table[i].key) {
      assert table[i] in table;
      if k <= i && k < |table| {
        assert table[k] in table;
      }
    }
    hide SortedEntries, EntrySet;
    InsertedIsSorted(table, k, e);
    InsertedEntries(table, k, e);
  }

  lemma InsertedIsSorted(table: seq<Entry>, k: nat, e: Entry)
    requires SortedEntries(table) && k <= |table|
    requires forall i :: 0 <= i < |table| ==> if i < k then Ahead(table[i].key, e.key) else Ahead(e.key, table[i].key)
    ensures SortedEntries(table[..k] + [e] + table[k..])
  {
    hide Ahead;
  }

  lemma InsertedEntries(table: seq<Entry>, k: nat, e: Entry)
    requires k <= |table|
    ensures EntrySet(table[..k] + [e] + table[k..]) == EntrySet(table) + {e}
  {
    assert table == table[..k] + table[k..];
  }

  /** `WriteBatchInternal::InsertInto`. */
  method InsertInto(table: seq<Entry>, ops: seq<Op>, start: nat) returns (r: seq<Entry>)
    requires SortedEntries(table)
    requires forall x :: x in table ==> x.key.sequence < start
    ensures SortedEntries(r)
    ensures EntrySet(r) == EntrySet(table) + EntrySet(BatchEntries(ops, start))
  {
    hide SortedEntries;
    ghost var entries := BatchEntries(ops, start);
    r := table;
    for i := 0 to |ops|
      invariant SortedEntries(r)
      invariant EntrySet(r) == EntrySet(table) + EntrySet(entries[..i])
      invariant forall x :: x in r ==> x.key.sequence < start + i
    {
      var next := MemTableAdd(r, EntryOf(ops[i], start + i));
      assert entries[..i + 1] == entries[..i] + [entries[i]];
      forall x | x in next ensures x.key.sequence < start + i + 1 {
        assert x in EntrySet(next);
      }
      r := next;
    }
    assert entries[..|ops|] == entries;
  }

  // ----- the object -----

  class DB {
    var mem: seq<Entry>
    var imm: Immutable
    var current: Version
    var lastSequence: nat
    var snapshots: seq<nat>
    var nextFileNumber: nat
    ghost var history: set<Entry>
    ghost var floor: nat

    ghost function View(): State
      reads this
    {
      State(mem, imm, current, lastSequence, snapshots, nextFileNumber, history, floor)
    }

    constructor ()
      ensures Init(View()) && Valid(View()) && Faithful(View())
    {
      mem, imm, current := [], NoTable, [[], [], [], [], [], [], []];
      lastSequence, snapshots, nextFileNumber := 0, [], 2;
      history, floor := {}, 0;
      new;
      InitIsValid(View());
    }

    /** The write path of one group: every operation gets the next sequence number, in order. */
    method Write(ops: seq<Op>)
      requires Valid(View()) && lastSequence + |ops| < MAX_SEQUENCE
      modifies this
      ensures Next(old(View()), View(), Step.Write(ops)) && Valid(View())
      ensures forall i :: 0 <= i < |ops| && IsLastOf(ops, i) ==>
                Read(Store(View()), ops[i].key, lastSequence) == if ops[i].Put? then Found(ops[i].value) else Deleted
    {
      hide ValidVersion, AllEntries, SortedEntries, EntrySet, BatchEntries;
      ghost var a := View();
      MemWithin(a);
      mem := InsertInto(mem, ops, lastSequence + 1);
      history := history + EntrySet(BatchEntries(ops, lastSequence + 1));
      lastSequence := lastSequence + |ops|;
      WriteKeeps(a, View(), ops);
      forall i | 0 <= i < |ops| && IsLastOf(ops, i)
        ensures Read(Store(View()), ops[i].key, lastSequence) == if ops[i].Put? then Found(ops[i].value) else Deleted
      {
        WrittenIsRead(a, View(), ops, i);
      }
    }

    /** The switch to a new memtable in `MakeRoomForWrite`; it waits while an immutable memtable exists. */
    method SwitchMemTable()
      requires Valid(View()) && imm.NoTable?
      modifies this
      ensures Next(old(View()), View(), Switch) && Valid(View())
      ensures mem == [] && imm == Table(old(mem))
    {
      hide ValidVersion, AllEntries, SortedEntries;
      ghost var a := View();
      imm := Table(mem);
      mem := [];
      SwitchKeeps(a, View());
    }

    /** `GetSnapshot`. */
    method GetSnapshot() returns (s: nat)
      requires Valid(View())
      modifies this
      ensures s == lastSequence && Next(old(View()), View(), TakeSnapshot) && Valid(View())
      ensures snapshots == old(snapshots) + [s]
    {
      hide ValidVersion, AllEntries, SortedEntries;
      ghost var a := View();
      s := lastSequence;
      snapshots := snapshots + [s];
      SnapshotKeeps(a, View());
    }

    /** `ReleaseSnapshot`. */
    method Release(i: nat)
      requires Valid(View()) && i < |snapshots|
      modifies this
      ensures Next(old(View()), View(), Step.ReleaseSnapshot(i)) && Valid(View())
      ensures snapshots == old(snapshots)[..i] + old(snapshots)[i + 1..]
    {
      hide ValidVersion, AllEntries, SortedEntries;
      ghost var a := View();
      snapshots := snapshots[..i] + snapshots[i + 1..];
      ReleaseKeeps(a, View(), i);
    }

    /** `Get`: memtable, immutable memtable, version. */
    method Get(user: UserKey, snapshot: nat) returns (r: Lookup)
      requires Valid(View())
      ensures r == Read(Store(View()), user, snapshot)
      ensures Faithful(View()) && snapshot >= floor ==> Seen(r) == Seen(Read(history, user, snapshot))
    {
      hide ValidVersion, SortedEntries, AllEntries, Faithful, Newest, Read;
      ghost var a := View();
      assert Faithful(a) && snapshot >= floor ==> Agrees(a, user, snapshot) by { FaithfulAgrees(a, user, snapshot); }
      var found, index := VersionGet.SearchRun(mem, user, snapshot);
      if found {
        ReadInMem(a, user, snapshot, mem[index]);
        return ResultOf(mem[index]);
      }
      var immIndex := 0;
      if imm.Table? {
        found, immIndex := VersionGet.SearchRun(imm.entries, user, snapshot);
      }
      if found {
        ReadInImm(a, user, snapshot, imm.entries[immIndex]);
        return ResultOf(imm.entries[immIndex]);
      }
      r := VersionGet.Get(current, user, snapshot);
      ReadInVersion(a, user, snapshot);
    }

    /** `NewIterator` with `NewInternalIterator`: a cursor over the visible map of the store at a snapshot. Entries that
        are written later have larger sequence numbers, so it does not matter that it does not see them. */
    method NewIterator(snapshot: nat) returns (it: DBIter)
      requires Valid(View())
      ensures fresh(it) && fresh(it.iter) && it.Inv() && !it.valid && it.sequence == snapshot
      ensures IsMapOf(it.Map(), Store(View()), snapshot)
      ensures Faithful(View()) && snapshot >= floor ==> IsMapOf(it.Map(), history, snapshot)
    {
      hide Valid, IsUnion, DistinctKeys, SortedKeys, SortedEntries, StoreRuns, Store, Faithful, IsMapOf;
      ghost var a := View();
      StoreRunsAreSorted(a);
      StoreRunsAreDistinct(a);
      var runs := StoreRuns(mem, imm, current);
      ghost var merged := MergeExists(runs);
      StoreRunsHold(a, merged);
      var internal := MergeRuns(runs, merged);
      it := new DBIter(internal, snapshot);
      MapOfStore(a, merged, snapshot);
    }

    /** `CompactMemTable` with `WriteLevel0Table` and `BuildTable`: the immutable memtable becomes a table file on
        the level that `PickLevelForMemTableOutput` chooses. */
    method CompactMemTable(maxOverlapBytes: nat) returns (ghost step: Step)
      requires Valid(View()) && imm.Table?
      modifies this
      ensures Next(old(View()), View(), step) && Valid(View())
      ensures step.FlushNothing? <==> old(imm).entries == []
    {
      hide Valid, Next, WellFormed, ValidFile, AddsFile, SomeOverlap, NumbersBelow;
      ghost var a := View();
      CurrentIsWellFormed(a);
      var es := imm.entries;
      var number := nextFileNumber;
      nextFileNumber := nextFileNumber + 1;
      if es == [] {
        imm := NoTable;
        step := FlushNothing;
        EmptyFlushed(a, View());
      } else {
        var size: nat := *;
        var f := FileMeta(number, size, es[0].key, es[|es| - 1].key, es);
        TableIsFile(a, f);
        var level := PickLevelForMemTableOutput(current, f.smallest.user, f.largest.user, maxOverlapBytes);
        current := InstallFlush(current, level, f);
        imm := NoTable;
        step := FlushTo(level, f);
        Flushed(a, View(), level, f);
      }
    }

    /** `BackgroundCompaction` on the files picked on a level: a trivial move when it is allowed and possible,
        otherwise a full compaction.  `c` tells which inputs were taken. */
    method BackgroundCompaction(level: nat, picked: seq<FileMeta>, isManual: bool, expandedLimit: nat,
                                maxOverlapBytes: nat)
      returns (c: Compaction, ghost step: Step)
      requires Valid(View()) && Startable(current, level, picked)
      modifies this
      ensures Next(old(View()), View(), step) && Valid(View())
      ensures step.Move? || step.Compact?
      ensures step.Move? <==>
                && !isManual && |c.inputs0| == 1 && c.inputs1 == []
                && TotalSize(c.grandparents) <= maxOverlapBytes
      ensures IsSetUp(old(current), level, picked, c.inputs0, c.inputs1, expandedLimit)
      ensures level + 2 < NUM_LEVELS ==>
                && |old(current)| == NUM_LEVELS
                && Between(old(current)[level + 2], c.inputs0 + c.inputs1, c.grandparents)
      ensures step.Compact? ==> step.job.v == old(current) && step.job.level == level
      ensures step.Compact? ==>
                step.job.in0 == c.inputs0 && step.job.in1 == c.inputs1 && step.job.snap == SmallestSnapshot(old(View()))
      ensures step.Move? ==> step.level == level && c.inputs0 == [step.file] && c.inputs1 == []
    {
      hide IsSetUp, Between, Valid, Next, ValidVersion, WellFormed, Startable, Selected, Replaces, Installs, TotalSize,
           NumbersBelow, NumbersFit;
      ghost var a := View();
      CurrentIsWellFormed(a);
      c := new Compaction(current, level, picked);
      var pointer := c.SetupOtherInputs(expandedLimit);
      var trivial := c.IsTrivialMove(maxOverlapBytes);
      if !isManual && trivial {
        var f := c.inputs0[0];
        assert c.inputs0 == [f] && c.inputs1 == [];
        MoveNumbersFit(current, level, f);
        current := InstallEdit(current, level, [f], [], [f]);
        step := Step.Move(level, f);
        Moved(a, View(), level, f);
      } else {
        var smallestSnapshot := if snapshots == [] then lastSequence else snapshots[0];
        var count: nat;
        ghost var job: Job;
        current, count, job := RunCompaction(a, c, smallestSnapshot, nextFileNumber);
        nextFileNumber := nextFileNumber + count;
        floor := smallestSnapshot;
        step := Step.Compact(job);
        Compacted(a, View(), job);
      }
    }
  }

  /** The list is the visible map of a set of entries: user keys ascend, and a key is in it with a value exactly when a
      read finds that value. */
  ghost predicate IsMapOf(list: seq<Entry>, S: set<Entry>, s: nat) {
    && (forall p, q :: 0 <= p < q < |list| ==> list[p].key.user < list[q].key.user)
    && (forall u, v :: Read(S, u, s) == Found(v) <==>
          exists p :: 0 <= p < |list| && list[p].key.user == u && list[p].value == v)
  }

  lemma MapOfStore(a: State, merged: seq<Entry>, s: nat)
    requires SortedEntries(merged) && EntrySet(merged) == Store(a)
    ensures IsMapOf(Visible(merged, s), Store(a), s)
    ensures Faithful(a) && s >= a.floor ==> IsMapOf(Visible(merged, s), a.history, s)
  {
    hide SortedEntries, Store, Read, Faithful, Visible;
    VisibleIsTheMap(merged, s);
    if Faithful(a) && s >= a.floor {
      forall u, v ensures Read(a.history, u, s) == Found(v) <==> Read(Store(a), u, s) == Found(v) {
        FaithfulAgrees(a, u, s);
      }
    }
  }

  lemma CurrentIsWellFormed(a: State)
    requires Valid(a)
    ensures ValidVersion(a.current) && WellFormed(a.current) && |a.current| == NUM_LEVELS
    ensures NumbersBelow(a.current, a.nextFileNumber)
    ensures a.floor <= SmallestSnapshot(a) <= a.lastSequence < MAX_SEQUENCE
  {
  }

  // ----- what background work has done is a step -----

  lemma EmptyFlushed(a: State, b: State)
    requires Valid(a) && EmptyFlushStep(a, b)
    ensures Next(a, b, FlushNothing) && Valid(b)
  {
    hide Valid;
    EmptyFlushKeeps(a, b);
  }

  lemma Flushed(a: State, b: State, l: nat, f: FileMeta)
    requires Valid(a) && FlushStep(a, b, l, f)
    ensures Next(a, b, FlushTo(l, f)) && Valid(b)
  {
    hide Valid, FlushStep;
    FlushKeeps(a, b, l, f);
  }

  lemma Moved(a: State, b: State, level: nat, f: FileMeta)
    requires Valid(a) && MoveStep(a, b, level, f)
    ensures Next(a, b, Step.Move(level, f)) && Valid(b)
  {
    hide Valid, MoveStep;
    MoveKeeps(a, b, level, f);
  }

  lemma Compacted(a: State, b: State, c: Job)
    requires Valid(a) && CompactStep(a, b, c)
    ensures Next(a, b, Step.Compact(c)) && Valid(b)
  {
    hide Valid, CompactStep;
    CompactKeepsValid(a, b, c);
  }

  lemma FaithfulAgrees(a: State, u: UserKey, s: nat)
    ensures Faithful(a) && s >= a.floor ==> Agrees(a, u, s)
  {
  }

  lemma MemWithin(a: State)
    requires Valid(a)
    ensures forall x :: x in a.mem ==> x.key.sequence <= a.lastSequence
  {
    hide ValidVersion, AllEntries, SortedEntries;
    forall x | x in a.mem ensures x.key.sequence <= a.lastSequence {
      assert x in Store(a);
    }
  }

  lemma StoreIsUnique(a: State)
    requires Valid(a)
    ensures Unique(Store(a))
  {
    hide ValidVersion, AllEntries, SortedEntries, Unique;
    UniqueSubset(Store(a), a.history);
  }

  lemma ReadInMem(a: State, u: UserKey, s: nat, e: Entry)
    requires Valid(a) && Newest(EntrySet(a.mem), u, s, e)
    ensures Read(Store(a), u, s) == ResultOf(e)
  {
    StoreIsUnique(a);
    hide ValidVersion, AllEntries, SortedEntries, Unique, Read, HistoryValid, SnapshotsValid, NumbersBelow;
    forall x | Covers(Store(a), u, s, x) ensures x.key.sequence <= e.key.sequence {
      assert x in EntrySet(a.mem) ==> Covers(EntrySet(a.mem), u, s, x);
      assert Covers(EntrySet(a.mem), u, s, e);
    }
    ReadIs(Store(a), u, s, e);
  }

  lemma ReadInImm(a: State, u: UserKey, s: nat, e: Entry)
    requires Valid(a) && a.imm.Table? && Newest(EntrySet(a.imm.entries), u, s, e)
    requires forall x :: x in a.mem ==> !(x.key.user == u && x.key.sequence <= s)
    ensures Read(Store(a), u, s) == ResultOf(e)
  {
    StoreIsUnique(a);
    hide ValidVersion, AllEntries, SortedEntries, Unique, Read, HistoryValid, SnapshotsValid, NumbersBelow;
    var I := EntrySet(a.imm.entries);
    assert Covers(I, u, s, e);
    forall x | Covers(Store(a), u, s, x) ensures x.key.sequence <= e.key.sequence {
      assert x in I ==> Covers(I, u, s, x);
      assert e in Tables(a);
    }
    ReadIs(Store(a), u, s, e);
  }

  lemma ReadInVersion(a: State, u: UserKey, s: nat)
    requires Valid(a)
    requires forall x :: x in a.mem ==> !(x.key.user == u && x.key.sequence <= s)
    requires a.imm.Table? ==> forall x :: x in a.imm.entries ==> !(x.key.user == u && x.key.sequence <= s)
    ensures Read(Store(a), u, s) == Read(AllEntries(a.current), u, s)
  {
    StoreIsUnique(a);
    hide ValidVersion, AllEntries, SortedEntries, Unique, Read;
    ReadOnTop(AllEntries(a.current), Tables(a), u, s);
  }

  /** `DoCompactionWork` with `InstallCompactionResults`: merge, drop, cut into files, install. */
  method RunCompaction(ghost a: State, c: Compaction, smallestSnapshot: nat, nextFileNumber: nat)
      returns (w: Version, count: nat, ghost job: Job)
    requires Valid(a) && c.version == a.current && Selected(c.version, c.level, c.inputs0, c.inputs1)
    requires smallestSnapshot < MAX_SEQUENCE && nextFileNumber == a.nextFileNumber
    requires c.levelPtrs.Length == NUM_LEVELS && forall l :: 0 <= l < NUM_LEVELS ==> c.levelPtrs[l] == 0
    modifies c.levelPtrs
    ensures Installs(job) && NumbersBelow(w, a.nextFileNumber + count)
    ensures job.v == a.current && job.w == w && job.level == c.level && job.in0 == c.inputs0 && job.in1 == c.inputs1
    ensures job.snap == smallestSnapshot
  {
    hide ValidVersion, WellFormed, AllEntries, SortedEntries, Selected, Replaces, Installs, Kept, Flatten,
         MergingIterator.Inv, NumbersBelow, NumbersFit, ValidFiles, Disjoint;
    SelectedShape(c.version, c.level, c.inputs0, c.inputs1);
    ValidIsWellFormed(c.version);
    var input := MakeInputIterator(c.version, c.level, c.inputs0, c.inputs1);
    var parts := DoCompactionWork(c, input, smallestSnapshot);
    PartsAreOutputs(a, c.level, c.inputs0, c.inputs1, input.merged, smallestSnapshot, parts);
    var out := BuildOutputs(parts, nextFileNumber);
    job := Job(c.version, c.level, c.inputs0, c.inputs1, input.merged, smallestSnapshot, out, []);
    OutputsFit(a, job, parts);
    w := InstallEdit(c.version, c.level, c.inputs0, c.inputs1, out);
    count := |out|;
    job := job.(w := w);
    JobIsInstalled(a, job, parts);
  }

  /** The table that `BuildTable` writes for an immutable memtable. */
  lemma TableIsFile(a: State, f: FileMeta)
    requires Valid(a) && a.imm.Table? && f.entries == a.imm.entries && f.entries != []
    requires f.smallest == f.entries[0].key && f.largest == f.entries[|f.entries| - 1].key
    ensures ValidFile(f)
  {
    hide ValidVersion, AllEntries, SortedEntries;
    forall e | e in f.entries ensures e.key.sequence <= MAX_SEQUENCE {
      assert e in Store(a);
    }
  }

  lemma FlushEditFits(v: Version, l: nat, f: FileMeta)
    requires WellFormed(v) && l < NUM_LEVELS && NumbersBelow(v, f.number)
    ensures CanApply(v, FileEdit([], [(l, f)]))
    ensures forall k :: AddedAt(FileEdit([], [(l, f)]), k) == (if k == l then {f} else {})
              && DeletedAt(FileEdit([], [(l, f)]), k) == {}
  {
    var edit := FileEdit([], [(l, f)]);
    LevelsAreSorted(v);
    hide WellFormed, SortedBySmallest;
    assert (l, f) in edit.newFiles;
    assert forall n :: n in edit.newFiles <==> n == (l, f);
  }

  method InstallFlush(v: Version, l: nat, f: FileMeta) returns (w: Version)
    requires WellFormed(v) && l < NUM_LEVELS && NumbersBelow(v, f.number)
    ensures AddsFile(v, l, f, w)
  {
    FlushEditFits(v, l, f);
    hide WellFormed, SortedBySmallest, CanApply, AddedAt, DeletedAt, NumbersBelow;
    w := LogAndApply(v, FileEdit([], [(l, f)]));
    LevelsAreSorted(v);
    forall k | 0 <= k < NUM_LEVELS && k != l ensures w[k] == v[k] {
      SortedIsUnique(w[k], v[k]);
    }
  }

  lemma MoveNumbersFit(v: Version, level: nat, f: FileMeta)
    requires ValidVersion(v) && Selected(v, level, [f], [])
    ensures NumbersFit(v, level, [f])
  {
    InputIsValid(v, level, [f], [], f);
    hide WellFormed, Layered;
  }

  /** The kept entries are sorted input entries, ready to be cut into files. */
  lemma PartsAreOutputs(a: State, level: nat, in0: seq<FileMeta>, in1: seq<FileMeta>, input: seq<Entry>, snap: nat,
                        parts: seq<seq<Entry>>)
    requires Valid(a) && Selected(a.current, level, in0, in1)
    requires SortedEntries(input) && forall e :: e in input <==> FromInput(in0, in1, e)
    requires Flatten(parts) == Kept(a.current, level, input, snap, |input|)
    ensures SortedEntries(Flatten(parts))
    ensures forall e :: e in Flatten(parts) ==> e.key.sequence <= MAX_SEQUENCE
  {
    hide ValidVersion, AllEntries, SortedEntries, Selected, Flatten, Kept, Dropped, FromInput;
    KeptEntries(a.current, level, input, snap, |input|);
    forall e | e in Flatten(parts) ensures e.key.sequence <= MAX_SEQUENCE {
      assert e in input[..|input|];
      ValidIsWellFormed(a.current);
      var l, f := HomeOfInput(a.current, level, in0, in1, e);
      Located(a.current, l, f, e);
      assert e in Store(a);
    }
  }

  lemma OutputsFit(a: State, c: Job, parts: seq<seq<Entry>>)
    requires Valid(a) && c.v == a.current && Selected(c.v, c.level, c.in0, c.in1)
    requires |c.out| == |parts| && forall i :: 0 <= i < |c.out| ==> c.out[i].number == a.nextFileNumber + i
    ensures NumbersFit(c.v, c.level, c.out)
  {
    hide ValidVersion, Selected, Ordered, HistoryValid, SnapshotsValid;
    SelectedShape(c.v, c.level, c.in0, c.in1);
    assert NumbersBelow(c.v, a.nextFileNumber);
    forall f, g | f in c.v[c.level + 1] && g in c.out ensures f.number != g.number {
      var i :| 0 <= i < |c.out| && c.out[i] == g;
    }
  }

  lemma JobIsInstalled(a: State, c: Job, parts: seq<seq<Entry>>)
    requires Valid(a) && c.v == a.current && Selected(c.v, c.level, c.in0, c.in1)
    requires SortedEntries(c.input) && forall e :: e in c.input <==> FromInput(c.in0, c.in1, e)
    requires Flatten(parts) == Kept(c.v, c.level, c.input, c.snap, |c.input|)
    requires |c.out| == |parts|
    requires forall i :: 0 <= i < |c.out| ==> c.out[i].number == a.nextFileNumber + i && c.out[i].entries == parts[i]
    requires ValidFiles(c.out) && Disjoint(c.out)
    requires forall e :: (exists f :: f in c.out && e in f.entries) <==> e in Flatten(parts)
    requires Replaces(c.v, c.level, c.in0, c.in1, c.out, c.w)
    ensures Installs(c) && NumbersBelow(c.w, a.nextFileNumber + |c.out|)
  {
    hide ValidVersion, Selected, SortedEntries, Flatten, Kept, FromInput, ValidFiles, Disjoint, Ordered, HistoryValid,
         SnapshotsValid, SortedBySmallest;
    OutputsCompact(c, parts, a.nextFileNumber);
    forall l, f | 0 <= l < |c.w| && f in c.w[l] ensures f.number < a.nextFileNumber + |c.out| {
      if f !in c.v[l] {
        assert l == c.level + 1 && f in c.out;
        var i :| 0 <= i < |c.out| && c.out[i] == f;
      }
    }
  }
}
