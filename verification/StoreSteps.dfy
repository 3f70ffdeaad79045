/** The database as a state machine (db/db_impl.cc, db/memtable.cc, db/snapshot.h): every step keeps the order
    invariants, and every read at a live snapshot is a read of the flat map of all writes. */
module StoreSteps {
  import opened InternalKeys
  import opened MultiVersion
  import opened Levels
  import opened CompactionInputs
  import opened CompactionSafety
  import opened Flush

  datatype Op = Put(key: UserKey, value: string) | Delete(key: UserKey)

  function EntryOf(op: Op, sequence: nat): Entry {
    match op
    case Put(k, v) => Entry(InternalKey(k, sequence, Value), v)
    case Delete(k) => Entry(InternalKey(k, sequence, Deletion), "")
  }

  /** The entries that a batch writes: one per operation, numbered upward from `start`. */
  function BatchEntries(ops: seq<Op>, start: nat): (r: seq<Entry>)
    ensures |r| == |ops|
    ensures forall i :: 0 <= i < |ops| ==> r[i] == EntryOf(ops[i], start + i)
  {
    if ops == [] then []
    else BatchEntries(ops[..|ops| - 1], start) + [EntryOf(ops[|ops| - 1], start + |ops| - 1)]
  }

  datatype Immutable = NoTable | Table(entries: seq<Entry>)

  /** The state of `DBImpl` that reads depend on.  `history` is every entry ever written and `floor` the largest
      smallest-snapshot that any compaction has used; both exist for the proof only. */
  datatype State = State(mem: seq<Entry>, imm: Immutable, current: Version, lastSequence: nat, snapshots: seq<nat>,
                         nextFileNumber: nat, history: set<Entry>, floor: nat)

  ghost function ImmSet(imm: Immutable): set<Entry> {
    if imm.Table? then EntrySet(imm.entries) else {}
  }

  /** The entries above the version. */
  ghost function Tables(a: State): set<Entry> {
    ImmSet(a.imm) + EntrySet(a.mem)
  }

  ghost function Store(a: State): set<Entry> {
    AllEntries(a.current) + Tables(a)
  }

  /** Sorted memtables, layered from newest to oldest above the version. */
  ghost predicate Ordered(a: State) {
    && SortedEntries(a.mem) && (a.imm.Table? ==> SortedEntries(a.imm.entries))
    && NewerThan(EntrySet(a.mem), ImmSet(a.imm))
    && NewerThan(Tables(a), AllEntries(a.current))
  }

  /** Snapshots ascend, so the first is the oldest; none is below the floor. */
  ghost predicate SnapshotsValid(a: State) {
    && (forall i, j :: 0 <= i < j < |a.snapshots| ==> a.snapshots[i] <= a.snapshots[j])
    && (forall i :: 0 <= i < |a.snapshots| ==> a.floor <= a.snapshots[i] <= a.lastSequence)
    && a.floor <= a.lastSequence < MAX_SEQUENCE
  }

  /** Nothing is stored that was not written. */
  ghost predicate HistoryValid(a: State) {
    && Unique(a.history) && Store(a) <= a.history
    && forall e :: e in a.history ==> e.key.sequence <= a.lastSequence
  }

  ghost predicate NumbersBelow(v: Version, next: nat) {
    forall l, f :: 0 <= l < |v| && f in v[l] ==> f.number < next
  }

  ghost predicate Valid(a: State) {
    ValidVersion(a.current) && Ordered(a) && SnapshotsValid(a) && HistoryValid(a)
        && NumbersBelow(a.current, a.nextFileNumber)
  }

  /** A read that agrees with the flat map of all writes. */
  ghost predicate Agrees(a: State, u: UserKey, s: nat) {
    Seen(Read(Store(a), u, s)) == Seen(Read(a.history, u, s))
  }

  /** Every read at or above the floor agrees with the flat map of all writes. */
  ghost predicate Faithful(a: State) {
    forall u, s: nat :: s >= a.floor ==> Agrees(a, u, s)
  }

  /** A client sees the same. */
  ghost predicate SameRead(a: State, b: State, u: UserKey, s: nat) {
    Seen(Read(Store(b), u, s)) == Seen(Read(Store(a), u, s))
  }

  /** An entry that keeps a deleted value of `u` out of the sight of a read at `s`: it is in a memtable, or in the
      version above the smallest snapshot. */
  ghost predicate Shields(a: State, snap: nat, u: UserKey, s: nat, x: Entry) {
    Covers(Tables(a), u, s, x) || (Covers(AllEntries(a.current), u, s, x) && x.key.sequence > snap)
  }

  /** The compaction brings a deleted value of `u` back, and nothing shields a read at `s` from it. */
  ghost predicate Uncovers(a: State, c: Job, u: UserKey, s: nat) {
    Resurrects(c.v, c.level, c.in0, c.in1, c.snap, u) && forall x :: !Shields(a, c.snap, u, s, x)
  }

  // ----- the steps -----

  ghost predicate Init(a: State) {
    a == State([], NoTable, [[], [], [], [], [], [], []], 0, [], 2, {}, 0)
  }

  /** One write group reaches the memtable and its last sequence number is published. */
  ghost predicate WriteStep(a: State, b: State, ops: seq<Op>) {
    var N := EntrySet(BatchEntries(ops, a.lastSequence + 1));
    && a.lastSequence + |ops| < MAX_SEQUENCE
    && SortedEntries(b.mem) && EntrySet(b.mem) == EntrySet(a.mem) + N
    && b == a.(mem := b.mem, lastSequence := a.lastSequence + |ops|, history := a.history + N)
  }

  /** `MakeRoomForWrite` switches to a new memtable. */
  ghost predicate SwitchStep(a: State, b: State) {
    a.imm.NoTable? && b == a.(mem := [], imm := Table(a.mem))
  }

  /** `CompactMemTable` turns the immutable memtable into a table on level `l`; an empty one leaves no file. */
  ghost predicate FlushStep(a: State, b: State, l: nat, f: FileMeta) {
    && a.imm.Table? && f.entries == a.imm.entries && ValidFile(f) && f.number == a.nextFileNumber
    && l < NUM_LEVELS && |a.current| == NUM_LEVELS
    && (l > 0 ==> forall k :: 0 <= k <= l ==> !SomeOverlap(a.current, k, f.smallest.user, f.largest.user))
    && AddsFile(a.current, l, f, b.current)
    && b == a.(imm := NoTable, current := b.current, nextFileNumber := a.nextFileNumber + 1)
  }

  ghost predicate EmptyFlushStep(a: State, b: State) {
    a.imm == Table([]) && b == a.(imm := NoTable, nextFileNumber := a.nextFileNumber + 1)
  }

  /** A compaction, atomic as `InstallCompactionResults` makes it. */
  ghost predicate CompactStep(a: State, b: State, c: Job) {
    && c.v == a.current && c.w == b.current && Installs(c)
    && a.floor <= c.snap <= SmallestSnapshot(a)
    && NumbersBelow(b.current, b.nextFileNumber)
    && b == a.(current := b.current, nextFileNumber := b.nextFileNumber, floor := c.snap)
  }

  /** The trivial move: the only input file changes level. */
  ghost predicate MoveStep(a: State, b: State, level: nat, f: FileMeta) {
    && Selected(a.current, level, [f], []) && Replaces(a.current, level, [f], [], [f], b.current)
    && b == a.(current := b.current)
  }

  ghost predicate SnapshotStep(a: State, b: State) {
    b == a.(snapshots := a.snapshots + [a.lastSequence])
  }

  ghost predicate ReleaseStep(a: State, b: State, i: nat) {
    i < |a.snapshots| && b == a.(snapshots := a.snapshots[..i] + a.snapshots[i + 1..])
  }

  /** What `DoCompactionWork` computes before it starts. */
  function SmallestSnapshot(a: State): nat {
    if a.snapshots == [] then a.lastSequence else a.snapshots[0]
  }

  // ----- every step keeps the invariants and the meaning -----

  lemma WriteKeeps(a: State, b: State, ops: seq<Op>)
    requires Valid(a) && WriteStep(a, b, ops)
    ensures Valid(b) && (Faithful(a) ==> Faithful(b))
  {
    hide ValidVersion, AllEntries, SortedEntries, Read, Unique, BatchEntries, EntrySet, Faithful, NewerThan;
    var N := EntrySet(BatchEntries(ops, a.lastSequence + 1));
    BatchIsNewer(ops, a.lastSequence, a.history);
    WriteKeepsOrder(a, b, N);
    assert Store(b) == Store(a) + N;
    OnTopOfBoth(a, b, N);
  }

  lemma WriteKeepsOrder(a: State, b: State, N: set<Entry>)
    requires Ordered(a) && Store(a) <= a.history && NewerThan(N, a.history)
    requires b.current == a.current && b.imm == a.imm && SortedEntries(b.mem) && EntrySet(b.mem) == EntrySet(a.mem) + N
    ensures Ordered(b)
  {
    hide AllEntries, SortedEntries, EntrySet, ImmSet;
  }

  /** The same newer entries on top of the store and of the history. */
  lemma OnTopOfBoth(a: State, b: State, N: set<Entry>)
    requires Unique(a.history) && Store(a) <= a.history && Unique(a.history + N) && NewerThan(N, a.history)
    requires Store(b) == Store(a) + N && b.history == a.history + N && b.floor == a.floor
    ensures Faithful(a) ==> Faithful(b)
  {
    hide Store, Read, Covers, Unique, Seen;
    UniqueSubset(Store(b), b.history);
    forall u, s: nat | s >= b.floor && Faithful(a) ensures Agrees(b, u, s) {
      assert Agrees(a, u, s);
      AgreeOnTop(Store(a), a.history, N, u, s);
    }
  }

  lemma UniqueSubset(S: set<Entry>, T: set<Entry>)
    requires S <= T && Unique(T)
    ensures Unique(S)
  {
  }

  lemma BatchIsNewer(ops: seq<Op>, last: nat, history: set<Entry>)
    requires Unique(history) && forall e :: e in history ==> e.key.sequence <= last
    ensures Unique(history + EntrySet(BatchEntries(ops, last + 1)))
    ensures NewerThan(EntrySet(BatchEntries(ops, last + 1)), history)
    ensures forall e :: e in EntrySet(BatchEntries(ops, last + 1)) ==> last < e.key.sequence <= last + |ops|
  {
    var N := EntrySet(BatchEntries(ops, last + 1));
    BatchSequences(ops, last + 1);
    hide BatchEntries, EntrySet;
    forall x, y | x in history + N && y in history + N && x.key.user == y.key.user && x.key.sequence == y.key.sequence
      ensures x == y
    {
    }
  }

  lemma BatchSequences(ops: seq<Op>, start: nat)
    ensures forall e :: e in EntrySet(BatchEntries(ops, start)) ==> start <= e.key.sequence < start + |ops|
    ensures var N := EntrySet(BatchEntries(ops, start));
            forall x, y :: x in N && y in N && x.key.sequence == y.key.sequence ==> x == y
  {
    var es := BatchEntries(ops, start);
    hide BatchEntries;
    forall e | e in EntrySet(es) ensures start <= e.key.sequence < start + |ops| && es[e.key.sequence - start] == e {
      var i :| 0 <= i < |es| && es[i] == e;
    }
  }

  /** The last operation on its key in the batch. */
  predicate IsLastOf(ops: seq<Op>, i: nat)
    requires i < |ops|
  {
    forall j :: i < j < |ops| ==> ops[j].key != ops[i].key
  }

  /** The entry of the last operation on a key is what a batch says about it. */
  lemma LastIsRead(ops: seq<Op>, start: nat, i: nat, s: nat)
    requires i < |ops| && IsLastOf(ops, i) && s >= start + i && Unique(EntrySet(BatchEntries(ops, start)))
    ensures var N := EntrySet(BatchEntries(ops, start));
            && (exists n :: Covers(N, ops[i].key, s, n))
            && Read(N, ops[i].key, s) == if ops[i].Put? then Found(ops[i].value) else Deleted
  {
    hide Unique, Read;
    var es := BatchEntries(ops, start);
    var N, e := EntrySet(es), EntryOf(ops[i], start + i);
    assert es[i] == e;
    assert Covers(N, ops[i].key, s, e);
    forall x | Covers(N, ops[i].key, s, x) ensures x.key.sequence <= e.key.sequence {
      var j :| 0 <= j < |es| && es[j] == x;
      assert x == EntryOf(ops[j], start + j);
    }
    ReadIs(N, ops[i].key, s, e);
  }

  /** What was written is read: the value of a `Put`, and nothing after a `Delete`. */
  lemma WrittenIsRead(a: State, b: State, ops: seq<Op>, i: nat)
    requires Valid(a) && WriteStep(a, b, ops) && i < |ops| && IsLastOf(ops, i)
    ensures var r := if ops[i].Put? then Found(ops[i].value) else Deleted;
            Read(b.history, ops[i].key, b.lastSequence) == r && Read(Store(b), ops[i].key, b.lastSequence) == r
  {
    hide Valid, WriteStep, BatchEntries, EntrySet, Store, Unique, Read;
    var N := EntrySet(BatchEntries(ops, a.lastSequence + 1));
    WrittenOnTop(a, b, ops);
    UniqueSubset(N, b.history);
    LastIsRead(ops, a.lastSequence + 1, i, b.lastSequence);
    ReadOnTop(a.history, N, ops[i].key, b.lastSequence);
    ReadOnTop(Store(a), N, ops[i].key, b.lastSequence);
  }

  /** Keys that are not in the batch read as before, at any sequence number. */
  lemma OthersReadAsBefore(a: State, b: State, ops: seq<Op>, u: UserKey, s: nat)
    requires Valid(a) && WriteStep(a, b, ops) && forall i :: 0 <= i < |ops| ==> ops[i].key != u
    ensures Read(b.history, u, s) == Read(a.history, u, s) && Read(Store(b), u, s) == Read(Store(a), u, s)
  {
    var es := BatchEntries(ops, a.lastSequence + 1);
    var N := EntrySet(es);
    forall x ensures !Covers(N, u, s, x) {
      if x in N {
        var j :| 0 <= j < |es| && es[j] == x;
        assert x == EntryOf(ops[j], a.lastSequence + 1 + j);
      }
    }
    WrittenOnTop(a, b, ops);
    hide Valid, ValidVersion, AllEntries, SortedEntries, BatchEntries, EntrySet, Store, Unique, Read;
    ReadOnTop(a.history, N, u, s);
    ReadOnTop(Store(a), N, u, s);
  }

  lemma WrittenOnTop(a: State, b: State, ops: seq<Op>)
    requires Valid(a) && WriteStep(a, b, ops)
    ensures var N := EntrySet(BatchEntries(ops, a.lastSequence + 1));
            && b.history == a.history + N && Store(b) == Store(a) + N && b.lastSequence == a.lastSequence + |ops|
            && NewerThan(N, a.history) && NewerThan(N, Store(a)) && Unique(b.history) && Unique(Store(b))
  {
    hide ValidVersion, AllEntries, SortedEntries, Unique, BatchEntries, EntrySet;
    BatchIsNewer(ops, a.lastSequence, a.history);
    assert Store(b) == Store(a) + EntrySet(BatchEntries(ops, a.lastSequence + 1));
    UniqueSubset(Store(b), b.history);
  }

  lemma SwitchKeeps(a: State, b: State)
    requires Valid(a) && SwitchStep(a, b)
    ensures Valid(b) && Store(b) == Store(a) && (Faithful(a) ==> Faithful(b))
  {
    SameStore(a, b);
  }

  /** Moving entries between layers changes no read. */
  lemma SameStore(a: State, b: State)
    requires b.history == a.history && b.floor == a.floor && Store(b) == Store(a)
    ensures Faithful(a) ==> Faithful(b)
  {
    forall u, s: nat | s >= b.floor && Faithful(a) ensures Agrees(b, u, s) {
      assert Agrees(a, u, s);
    }
  }

  lemma FlushKeeps(a: State, b: State, l: nat, f: FileMeta)
    requires Valid(a) && FlushStep(a, b, l, f)
    ensures Valid(b) && Store(b) == Store(a) && (Faithful(a) ==> Faithful(b))
  {
    hide ValidVersion, AllEntries, SortedEntries, AddsFile, Faithful;
    assert Flushable(a.current, l, f);
    FlushKeepsValid(a.current, l, f, b.current);
    assert Store(b) == Store(a);
    SameStore(a, b);
    FlushKeepsNumbers(a.current, l, f, b.current, a.nextFileNumber);
  }

  lemma FlushKeepsNumbers(v: Version, l: nat, f: FileMeta, w: Version, next: nat)
    requires AddsFile(v, l, f, w) && NumbersBelow(v, next) && f.number == next
    ensures NumbersBelow(w, next + 1)
  {
    hide SortedBySmallest;
  }

  lemma EmptyFlushKeeps(a: State, b: State)
    requires Valid(a) && EmptyFlushStep(a, b)
    ensures Valid(b) && Store(b) == Store(a) && (Faithful(a) ==> Faithful(b))
  {
    hide ValidVersion, AllEntries, SortedEntries, Faithful;
    SameStore(a, b);
  }

  lemma MoveKeeps(a: State, b: State, level: nat, f: FileMeta)
    requires Valid(a) && MoveStep(a, b, level, f)
    ensures Valid(b) && Store(b) == Store(a) && (Faithful(a) ==> Faithful(b))
  {
    hide ValidVersion, AllEntries, SortedEntries, Faithful, Selected, Replaces;
    MoveIsReplacement(a.current, level, f, b.current);
    ReplaceKeepsValid(a.current, level, [f], [], [f], b.current);
    SelectedShape(a.current, level, [f], []);
    MoveKeepsEntries(a.current, level, f, b.current);
    MoveKeepsNumbers(a.current, level, f, b.current, a.nextFileNumber);
    SameStore(a, b);
  }

  lemma MovedLevels(v: Version, level: nat, f: FileMeta, w: Version, l: nat, g: FileMeta)
    requires level + 1 < |v| && f in v[level] && Replaces(v, level, [f], [], [f], w) && l < |v|
    ensures g in w[l] <==> if l == level then g in v[l] && g != f else g in v[l] || (l == level + 1 && g == f)
  {
    hide SortedBySmallest;
    assert g in [f] <==> g == f;
    if l != level && l != level + 1 {
      assert w[l] == v[l];
    }
  }

  lemma MoveKeepsNumbers(v: Version, level: nat, f: FileMeta, w: Version, next: nat)
    requires level + 1 < |v| && f in v[level] && Replaces(v, level, [f], [], [f], w) && NumbersBelow(v, next)
    ensures NumbersBelow(w, next)
  {
    forall l, g | 0 <= l < |w| && g in w[l] ensures g.number < next {
      MovedLevels(v, level, f, w, l, g);
    }
  }

  lemma MoveIsReplacement(v: Version, level: nat, f: FileMeta, w: Version)
    requires ValidVersion(v) && Selected(v, level, [f], []) && Replaces(v, level, [f], [], [f], w)
    ensures ValidOutputs(v, [f], [], [f]) && f in v[level]
  {
    InputIsValid(v, level, [f], [], f);
  }

  lemma MoveKeepsEntries(v: Version, level: nat, f: FileMeta, w: Version)
    requires |v| == NUM_LEVELS && level + 1 < NUM_LEVELS && f in v[level] && Replaces(v, level, [f], [], [f], w)
    ensures AllEntries(w) == AllEntries(v)
  {
    hide SortedBySmallest;
    forall e ensures e in AllEntries(w) <==> e in AllEntries(v) {
      if e in AllEntries(w) {
        var l, g := Locate(w, e);
        MovedLevels(v, level, f, w, l, g);
        Located(v, if l == level + 1 && g == f then level else l, g, e);
      }
      if e in AllEntries(v) {
        var l, g := Locate(v, e);
        MovedLevels(v, level, f, w, level + 1, f);
        MovedLevels(v, level, f, w, l, g);
        Located(w, if l == level && g == f then level + 1 else l, g, e);
      }
    }
  }

  /** A compaction keeps the invariants always, and the meaning exactly when it uncovers no deleted value at the
      smallest snapshot. */
  lemma CompactKeeps(a: State, b: State, c: Job)
    requires Valid(a) && CompactStep(a, b, c)
    ensures Valid(b)
    ensures Faithful(a) ==> (Faithful(b) <==> forall u :: !Uncovers(a, c, u, c.snap))
  {
    hide *;
    CompactKeepsValid(a, b, c);
    FloorAfter(a, b, c);
    if Faithful(a) {
      forall u, s: nat | s >= c.snap && !Uncovers(a, c, u, c.snap) ensures Agrees(b, u, s) {
        CompactChangesRead(a, b, c, u, s);
        ShieldedAbove(a, c, u, s);
        AgreesFurther(a, b, u, s);
      }
      forall u | Uncovers(a, c, u, c.snap) ensures !Agrees(b, u, c.snap) {
        CompactChangesRead(a, b, c, u, c.snap);
        AgreesFurther(a, b, u, c.snap);
      }
      FaithfulIs(b);
    }
  }

  lemma FloorAfter(a: State, b: State, c: Job)
    requires Valid(a) && CompactStep(a, b, c)
    ensures a.floor <= c.snap == b.floor && b.history == a.history
  {
    hide ValidVersion, Ordered, HistoryValid, NumbersBelow, Installs;
  }

  lemma FaithfulIs(a: State)
    ensures Faithful(a) <==> forall u, s: nat :: s >= a.floor ==> Agrees(a, u, s)
  {
  }

  lemma AgreesFurther(a: State, b: State, u: UserKey, s: nat)
    requires Faithful(a) && s >= a.floor && b.history == a.history
    ensures Agrees(b, u, s) <==> SameRead(a, b, u, s)
  {
    hide Store, Read, Seen;
    assert Agrees(a, u, s);
  }

  lemma ShieldedAbove(a: State, c: Job, u: UserKey, s: nat)
    requires s >= c.snap
    ensures Uncovers(a, c, u, s) ==> Uncovers(a, c, u, c.snap)
  {
    hide Resurrects, Tables, AllEntries;
    assert forall x :: Shields(a, c.snap, u, c.snap, x) ==> Shields(a, c.snap, u, s, x);
  }

  lemma CompactKeepsValid(a: State, b: State, c: Job)
    requires Valid(a) && CompactStep(a, b, c)
    ensures Valid(b)
  {
    hide ValidVersion, AllEntries, SortedEntries, Installs;
    OnlyOldEntries(c);
    CompactKeepsOrder(a, b);
  }

  /** A compaction changes what a client reads at or above the smallest snapshot exactly when it uncovers a deleted
      value; then what read as deleted is found. */
  lemma CompactChangesRead(a: State, b: State, c: Job, u: UserKey, s: nat)
    requires Valid(a) && CompactStep(a, b, c) && s >= c.snap
    ensures SameRead(a, b, u, s) <==> !Uncovers(a, c, u, s)
    ensures Uncovers(a, c, u, s) ==> Read(Store(a), u, s) == Deleted && Read(Store(b), u, s).Found?
  {
    hide *;
    var V, W, N := AllEntries(c.v), AllEntries(c.w), Tables(a);
    VersionsBelow(a, b, c);
    ReadOnTop(V, N, u, s);
    ReadOnTop(W, N, u, s);
    VersionRead(c, u, s);
    ShieldsIs(a, c, u, s);
    SeenIs(a, b, c, u, s);
  }

  lemma SeenIs(a: State, b: State, c: Job, u: UserKey, s: nat)
    ensures Read(Store(a), u, s) == Read(Store(b), u, s) ==> SameRead(a, b, u, s)
    ensures Read(Store(a), u, s) == Deleted && Read(Store(b), u, s).Found? ==> !SameRead(a, b, u, s)
    ensures Read(Store(a), u, s) == Read(AllEntries(c.v), u, s)
              && Read(Store(b), u, s) == Read(AllEntries(c.w), u, s) ==>
              (SameRead(a, b, u, s) <==> ReadKept(c, u, s))
  {
    hide Store, Read, AllEntries;
  }

  lemma VersionsBelow(a: State, b: State, c: Job)
    requires Valid(a) && CompactStep(a, b, c)
    ensures c.v == a.current && c.w == b.current && ValidVersion(c.v) && Installs(c)
    ensures Store(a) == AllEntries(c.v) + Tables(a) && Store(b) == AllEntries(c.w) + Tables(a)
    ensures Unique(Store(a)) && NewerThan(Tables(a), AllEntries(c.v))
    ensures Unique(Store(b)) && NewerThan(Tables(a), AllEntries(c.w))
  {
    hide ValidVersion, AllEntries, SortedEntries, Installs, Unique;
    OnlyOldEntries(c);
    UniqueSubset(Store(a), a.history);
    UniqueSubset(Store(b), Store(a));
  }

  lemma ShieldsIs(a: State, c: Job, u: UserKey, s: nat)
    requires c.v == a.current
    ensures Uncovers(a, c, u, s) <==>
              && Resurrects(c.v, c.level, c.in0, c.in1, c.snap, u)
              && !(exists x :: Covers(Tables(a), u, s, x))
              && !(exists x :: Covers(AllEntries(c.v), u, s, x) && x.key.sequence > c.snap)
  {
    hide Resurrects, Tables, AllEntries, Covers;
    forall x | Covers(Tables(a), u, s, x) || (Covers(AllEntries(c.v), u, s, x) && x.key.sequence > c.snap)
      ensures Shields(a, c.snap, u, s, x)
    {
    }
  }

  lemma CompactKeepsOrder(a: State, b: State)
    requires Valid(a) && AllEntries(b.current) <= AllEntries(a.current)
    requires a.floor <= b.floor <= SmallestSnapshot(a)
    requires b == a.(current := b.current, nextFileNumber := b.nextFileNumber, floor := b.floor)
    ensures Ordered(b) && SnapshotsValid(b) && HistoryValid(b)
  {
    hide ValidVersion, AllEntries, SortedEntries, Unique;
  }

  lemma SnapshotKeeps(a: State, b: State)
    requires Valid(a) && SnapshotStep(a, b)
    ensures Valid(b) && Store(b) == Store(a) && (Faithful(a) ==> Faithful(b))
  {
    hide ValidVersion, AllEntries, SortedEntries, Unique, Faithful;
    SameStore(a, b);
  }

  lemma ReleaseKeeps(a: State, b: State, i: nat)
    requires Valid(a) && ReleaseStep(a, b, i)
    ensures Valid(b) && Store(b) == Store(a) && (Faithful(a) ==> Faithful(b))
  {
    hide ValidVersion, AllEntries, SortedEntries, Unique, Faithful;
    SameStore(a, b);
  }

  lemma EmptyVersionIsValid(v: Version)
    requires v == [[], [], [], [], [], [], []]
    ensures ValidVersion(v) && AllEntries(v) == {}
  {
    assert forall l :: 0 <= l < |v| ==> v[l] == [];
    NoFilesIsValid(v);
  }

  lemma NoFilesIsValid(v: Version)
    requires |v| == NUM_LEVELS && forall l :: 0 <= l < |v| ==> v[l] == []
    ensures ValidVersion(v) && AllEntries(v) == {}
  {
    hide AllEntries, ValidFile;
    assert WellFormed(v);
    assert forall l, f, e :: !OnLevel(v, l, f, e);
    if e :| e in AllEntries(v) {
      var l, f := Locate(v, e);
    }
  }

  lemma InitIsValid(a: State)
    requires Init(a)
    ensures Valid(a) && Faithful(a)
  {
    EmptyVersionIsValid(a.current);
    hide ValidVersion, AllEntries, Read;
    assert Store(a) == {};
  }

  // ----- whole runs -----

  datatype Step =
    | Write(ops: seq<Op>)
    | Switch
    | FlushTo(level: nat, file: FileMeta)
    | FlushNothing
    | Compact(job: Job)
    | Move(level: nat, file: FileMeta)
    | TakeSnapshot
    | ReleaseSnapshot(index: nat)

  ghost predicate Next(a: State, b: State, step: Step) {
    match step
    case Write(ops) => WriteStep(a, b, ops)
    case Switch => SwitchStep(a, b)
    case FlushTo(l, f) => FlushStep(a, b, l, f)
    case FlushNothing => EmptyFlushStep(a, b)
    case Compact(c) => CompactStep(a, b, c)
    case Move(l, f) => MoveStep(a, b, l, f)
    case TakeSnapshot => SnapshotStep(a, b)
    case ReleaseSnapshot(i) => ReleaseStep(a, b, i)
  }

  /** The steps by name. */
  lemma NextIs(a: State, b: State, step: Step)
    requires Next(a, b, step)
    ensures step.Write? ==> WriteStep(a, b, step.ops)
    ensures step.Switch? ==> SwitchStep(a, b)
    ensures step.FlushTo? ==> FlushStep(a, b, step.level, step.file)
    ensures step.FlushNothing? ==> EmptyFlushStep(a, b)
    ensures step.Compact? ==> CompactStep(a, b, step.job)
    ensures step.Move? ==> MoveStep(a, b, step.level, step.file)
    ensures step.TakeSnapshot? ==> SnapshotStep(a, b)
    ensures step.ReleaseSnapshot? ==> ReleaseStep(a, b, step.index)
  {
  }

  /** A compaction step that uncovers a deleted value. */
  ghost predicate Resurrecting(a: State, step: Step) {
    step.Compact? && exists u :: Uncovers(a, step.job, u, step.job.snap)
  }

  lemma StepKeepsValid(a: State, b: State, step: Step)
    requires Valid(a) && Next(a, b, step)
    ensures Valid(b)
    ensures Faithful(a) ==> (Faithful(b) <==> !Resurrecting(a, step))
    ensures a.floor <= b.floor && a.lastSequence <= b.lastSequence
    ensures a.history <= b.history && forall e :: e in b.history - a.history ==> e.key.sequence > a.lastSequence
  {
    StepMovesOn(a, b, step);
    hide *;
    NextIs(a, b, step);
    match step
    case Write(ops) => WriteKeeps(a, b, ops);
    case Switch => SwitchKeeps(a, b);
    case FlushTo(l, f) => FlushKeeps(a, b, l, f);
    case FlushNothing => EmptyFlushKeeps(a, b);
    case Compact(c) => CompactKeeps(a, b, c);
    case Move(l, f) => MoveKeeps(a, b, l, f);
    case TakeSnapshot => SnapshotKeeps(a, b);
    case ReleaseSnapshot(i) => ReleaseKeeps(a, b, i);
  }

  lemma StepMovesOn(a: State, b: State, step: Step)
    requires Valid(a) && Next(a, b, step)
    ensures a.floor <= b.floor && a.lastSequence <= b.lastSequence
    ensures a.history <= b.history && forall e :: e in b.history - a.history ==> e.key.sequence > a.lastSequence
  {
    hide ValidVersion, HistoryValid, Ordered, NumbersBelow, EntrySet, BatchEntries, AddsFile, Installs, Selected,
         Replaces;
    if step.Write? {
      BatchSequences(step.ops, a.lastSequence + 1);
    }
  }

  ghost predicate IsRun(states: seq<State>, steps: seq<Step>) {
    && |states| == |steps| + 1
    && Init(states[0])
    && forall i :: 0 <= i < |steps| ==> Next(states[i], states[i + 1], steps[i])
  }

  lemma RunGrows(states: seq<State>, steps: seq<Step>, b: State, step: Step)
    requires IsRun(states, steps) && Next(states[|steps|], b, step)
    ensures IsRun(states + [b], steps + [step])
  {
    hide Init, Next;
  }

  /** None of the first `n` steps uncovers a deleted value. */
  ghost predicate NeverResurrects(states: seq<State>, steps: seq<Step>, n: nat)
    requires n <= |steps| < |states|
  {
    forall i :: 0 <= i < n ==> !Resurrecting(states[i], steps[i])
  }

  /** In every reachable state both order invariants hold, and all reads up to it have been reads of the flat map of
      all writes exactly when no compaction on the way uncovered a deleted value. */
  lemma {:induction false} EveryReachableState(states: seq<State>, steps: seq<Step>, i: nat)
    requires IsRun(states, steps) && i < |states|
    ensures Valid(states[i])
    ensures (forall k :: 0 <= k <= i ==> Faithful(states[k])) <==> NeverResurrects(states, steps, i)
  {
    hide Valid, Faithful, Init, Next, Resurrecting;
    if i == 0 {
      InitIsValid(states[0]);
    } else {
      EveryReachableState(states, steps, i - 1);
      StepKeepsValid(states[i - 1], states[i], steps[i - 1]);
    }
  }

  lemma {:induction false} RunMovesOn(states: seq<State>, steps: seq<Step>, i: nat, j: nat)
    requires IsRun(states, steps) && i <= j < |states|
    ensures states[i].floor <= states[j].floor && states[i].lastSequence <= states[j].lastSequence
    ensures states[i].history <= states[j].history
    ensures forall e :: e in states[j].history - states[i].history ==> e.key.sequence > states[i].lastSequence
    decreases j
  {
    hide Valid, Faithful, Init, Next, Resurrecting;
    if i < j {
      RunMovesOn(states, steps, i, j - 1);
      EveryReachableState(states, steps, j - 1);
      StepKeepsValid(states[j - 1], states[j], steps[j - 1]);
    }
  }

  /** The read of `u` at `s` is one that the step changes. */
  ghost predicate Disturbs(a: State, step: Step, u: UserKey, s: nat) {
    step.Compact? && Uncovers(a, step.job, u, s)
  }

  /** A step changes what a snapshot reads only by uncovering a deleted value. */
  lemma StepKeepsRead(a: State, b: State, step: Step, u: UserKey, s: nat)
    requires Valid(a) && Next(a, b, step) && b.floor <= s <= a.lastSequence
    ensures SameRead(a, b, u, s) <==> !Disturbs(a, step, u, s)
    ensures Disturbs(a, step, u, s) ==> Read(Store(a), u, s) == Deleted && Read(Store(b), u, s).Found?
  {
    hide Valid, Next, Store, Read, Uncovers, WriteStep, SwitchStep, FlushStep, EmptyFlushStep, CompactStep, MoveStep,
         SnapshotStep, ReleaseStep;
    NextIs(a, b, step);
    match step
    case Write(ops) => WriteKeepsRead(a, b, ops, u, s);
    case Switch => SwitchKeeps(a, b);
    case FlushTo(l, f) => FlushKeeps(a, b, l, f);
    case FlushNothing => EmptyFlushKeeps(a, b);
    case Compact(c) => FloorAfter(a, b, c); CompactChangesRead(a, b, c, u, s);
    case Move(l, f) => MoveKeeps(a, b, l, f);
    case TakeSnapshot => SnapshotKeeps(a, b);
    case ReleaseSnapshot(i) => ReleaseKeeps(a, b, i);
  }

  lemma WriteKeepsRead(a: State, b: State, ops: seq<Op>, u: UserKey, s: nat)
    requires Valid(a) && WriteStep(a, b, ops) && s <= a.lastSequence
    ensures Read(Store(b), u, s) == Read(Store(a), u, s)
  {
    hide ValidVersion, AllEntries, SortedEntries, Read, BatchEntries, EntrySet;
    var N := EntrySet(BatchEntries(ops, a.lastSequence + 1));
    BatchIsNewer(ops, a.lastSequence, a.history);
    assert Store(b) == Store(a) + N;
    UniqueSubset(Store(b), a.history + N);
    ReadOnTop(Store(a), N, u, s);
  }

  /** What a snapshot reads stays the same, whatever is written, flushed, moved or compacted, exactly until some
      compaction uncovers a deleted value for this very read; from then on that value is found.  (A live snapshot is
      at or above the floor.) */
  lemma {:induction false} SnapshotIsolation(states: seq<State>, steps: seq<Step>, i: nat, j: nat, u: UserKey, s: nat)
    requires IsRun(states, steps) && i <= j < |states|
    requires states[j].floor <= s <= states[i].lastSequence
    ensures SameRead(states[i], states[j], u, s) <==> forall k :: i <= k < j ==> !Disturbs(states[k], steps[k], u, s)
    ensures !SameRead(states[i], states[j], u, s) ==>
              !Read(Store(states[i]), u, s).Found? && Read(Store(states[j]), u, s).Found?
    decreases j
  {
    hide Next, Init, Disturbs, Valid, Store, Read;
    if i < j {
      var a, b, step := states[j - 1], states[j], steps[j - 1];
      RunMovesOn(states, steps, i, j - 1);
      EveryReachableState(states, steps, j - 1);
      StepKeepsValid(a, b, step);
      SnapshotIsolation(states, steps, i, j - 1, u, s);
      StepKeepsRead(a, b, step, u, s);
    }
  }
}
