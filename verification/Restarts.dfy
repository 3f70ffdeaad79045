/** Crash and recovery of the store (`Recover` in db/db_impl.cc): the version comes back as the manifest says, and of
    the memtables what the logs still hold. Reads stay faithful to the writes that survive, whatever was lost. */
module Restarts {
  import opened InternalKeys
  import opened MultiVersion
  import opened Levels
  import opened CompactionInputs
  import opened CompactionSafety
  import opened Flush
  import opened StoreSteps

  /** What has left the memtables. */
  ghost function Flushed(a: State): set<Entry> {
    a.history - Tables(a)
  }

  /** Memtables are newer than all that has left them. */
  ghost predicate FlushedIsOlder(a: State) {
    NewerThan(Tables(a), Flushed(a))
  }

  /** Below the memtables, reads at or above the floor are reads of what has left them. */
  ghost predicate VersionFaithful(a: State) {
    forall u, s: nat :: s >= a.floor ==> VersionAgrees(a, u, s)
  }

  ghost predicate VersionAgrees(a: State, u: UserKey, s: nat) {
    Seen(Read(AllEntries(a.current), u, s)) == Seen(Read(Flushed(a), u, s))
  }

  /** The process ends at any moment.  Some of the entries in memtables are lost, the others are in the new memtable;
      sequence numbers go on above all that is left, and no snapshot survives. */
  ghost predicate RestartStep(a: State, b: State) {
    && SortedEntries(b.mem) && EntrySet(b.mem) <= Tables(a)
    && a.floor <= b.lastSequence <= a.lastSequence && (forall e :: e in b.history ==> e.key.sequence <= b.lastSequence)
    && b == a.(mem := b.mem, imm := NoTable, snapshots := [], lastSequence := b.lastSequence,
               history := Flushed(a) + EntrySet(b.mem))
  }

  /** A compaction that brings back a deleted value in the version, whether a memtable shields it or not. */
  ghost predicate Uncareful(step: Step) {
    step.Compact? && exists u :: Resurrects(step.job.v, step.job.level, step.job.in0, step.job.in1, step.job.snap, u)
  }

  // ----- what the invariant gives -----

  lemma FlushedIs(a: State)
    requires Valid(a)
    ensures AllEntries(a.current) <= Flushed(a) && Unique(Flushed(a)) && Unique(a.history)
    ensures a.history == Flushed(a) + Tables(a) && NewerThan(Tables(a), AllEntries(a.current))
    ensures Unique(Store(a)) && Store(a) == AllEntries(a.current) + Tables(a)
  {
    hide ValidVersion, AllEntries, SortedEntries, Unique, Tables;
    UniqueSubset(Flushed(a), a.history);
    UniqueSubset(Store(a), a.history);
  }

  /** The memtables on top of both sides. */
  lemma FaithfulBelowIsFaithful(a: State)
    requires Valid(a) && FlushedIsOlder(a) && VersionFaithful(a)
    ensures Faithful(a)
  {
    hide Valid, AllEntries, Tables, Flushed, Read, Unique, Store;
    FlushedIs(a);
    forall u, s: nat | s >= a.floor ensures Agrees(a, u, s) {
      assert VersionAgrees(a, u, s);
      AgreeOnTop(AllEntries(a.current), Flushed(a), Tables(a), u, s);
    }
  }

  lemma SameBelow(a: State, b: State)
    requires VersionFaithful(a) && AllEntries(b.current) == AllEntries(a.current) && Flushed(b) == Flushed(a)
    requires a.floor <= b.floor
    ensures VersionFaithful(b)
  {
    hide AllEntries, Flushed, Read;
    forall u, s: nat | s >= b.floor ensures VersionAgrees(b, u, s) {
      assert VersionAgrees(a, u, s);
    }
  }

  // ----- every step -----

  lemma WriteBelow(a: State, b: State, ops: seq<Op>)
    requires Valid(a) && FlushedIsOlder(a) && WriteStep(a, b, ops)
    ensures Flushed(b) == Flushed(a) && FlushedIsOlder(b)
  {
    hide ValidVersion, AllEntries, SortedEntries, BatchEntries, EntrySet, Unique;
    var N := EntrySet(BatchEntries(ops, a.lastSequence + 1));
    BatchIsNewer(ops, a.lastSequence, a.history);
    FlushedIs(a);
    assert Tables(b) == Tables(a) + N && b.history == a.history + N;
    NewOnTop(a.history, Tables(a), N);
  }

  lemma NewOnTop(H: set<Entry>, T: set<Entry>, N: set<Entry>)
    requires T <= H && NewerThan(N, H) && NewerThan(T, H - T)
    ensures (H + N) - (T + N) == H - T && NewerThan(T + N, H - T)
  {
    forall e | e in H - T ensures e !in N {
      assert e in N ==> e.key.sequence > e.key.sequence;
    }
  }

  lemma FlushBelow(a: State, b: State, l: nat, f: FileMeta)
    requires Valid(a) && FlushedIsOlder(a) && VersionFaithful(a) && FlushStep(a, b, l, f)
    ensures FlushedIsOlder(b) && VersionFaithful(b)
  {
    var I, M, V, F := ImmSet(a.imm), EntrySet(a.mem), AllEntries(a.current), Flushed(a);
    FlushKeeps(a, b, l, f);
    FlushMoves(a, b, l, f);
    FlushedIs(a);
    MemOverImm(a);
    hide Valid, AllEntries, Tables, EntrySet, ImmSet, Read, Unique, FlushStep, Flushed, FlushedIsOlder;
    forall u, s: nat | s >= b.floor ensures VersionAgrees(b, u, s) {
      assert VersionAgrees(a, u, s);
      AgreeOnTop(V, F, I, u, s);
    }
  }

  lemma MemOverImm(a: State)
    requires Valid(a) && FlushedIsOlder(a)
    ensures var I, V, F := ImmSet(a.imm), AllEntries(a.current), Flushed(a);
            NewerThan(I, V) && NewerThan(I, F) && Unique(V + I) && Unique(F + I)
  {
    hide ValidVersion, AllEntries, SortedEntries, Unique, EntrySet;
    UniqueSubset(AllEntries(a.current) + ImmSet(a.imm), a.history);
    UniqueSubset(Flushed(a) + ImmSet(a.imm), a.history);
  }

  lemma FlushMoves(a: State, b: State, l: nat, f: FileMeta)
    requires Valid(a) && FlushedIsOlder(a) && FlushStep(a, b, l, f)
    ensures AllEntries(b.current) == AllEntries(a.current) + ImmSet(a.imm)
    ensures Flushed(b) == Flushed(a) + ImmSet(a.imm) && FlushedIsOlder(b)
    ensures b.floor == a.floor
  {
    hide ValidVersion, AllEntries, SortedEntries, AddsFile, ValidFile;
    FlushKeepsEntries(a.current, l, f, b.current);
    assert Tables(b) == EntrySet(a.mem) && Tables(a) == ImmSet(a.imm) + EntrySet(a.mem);
    Apart(ImmSet(a.imm), EntrySet(a.mem));
  }

  /** Newer entries are other entries. */
  lemma Apart(S: set<Entry>, N: set<Entry>)
    requires NewerThan(N, S)
    ensures S !! N
  {
    forall e | e in S ensures e !in N {
      assert e in N ==> e.key.sequence > e.key.sequence;
    }
  }

  lemma CompactBelow(a: State, b: State, c: Job)
    requires Valid(a) && FlushedIsOlder(a) && VersionFaithful(a) && CompactStep(a, b, c) && !Uncareful(Compact(c))
    ensures FlushedIsOlder(b) && VersionFaithful(b)
  {
    VersionsBelow(a, b, c);
    FloorAfter(a, b, c);
    CompactionPreservesMeaning(c);
    assert Flushed(b) == Flushed(a) && Tables(b) == Tables(a);
    hide Valid, CompactStep, ValidVersion, Installs, AllEntries, Tables, Flushed, Read, Unique, Resurrects;
    forall u, s: nat | s >= b.floor ensures VersionAgrees(b, u, s) {
      assert VersionAgrees(a, u, s) && ReadKept(c, u, s);
    }
  }

  /** Every step of the store keeps reads below the memtables faithful, unless a compaction brings back a deleted value.
      */
  lemma StepBelow(a: State, b: State, step: Step)
    requires Valid(a) && FlushedIsOlder(a) && VersionFaithful(a) && Next(a, b, step) && !Uncareful(step)
    ensures Valid(b) && FlushedIsOlder(b) && VersionFaithful(b)
  {
    StepKeepsValid(a, b, step);
    NextIs(a, b, step);
    hide Valid, Next, Flushed, Tables, AllEntries, Uncareful, WriteStep, FlushStep, CompactStep, MoveStep;
    match step
    case Write(ops) =>
      WriteBelow(a, b, ops);
      WriteIs(a, b, ops);
      SameBelow(a, b);
    case FlushTo(l, f) => FlushBelow(a, b, l, f);
    case Compact(c) => CompactBelow(a, b, c);
    case Move(l, f) =>
      MoveIs(a, b, l, f);
      SameBelow(a, b);
    case _ =>
      SilentIs(a, b, step);
      SameBelow(a, b);
  }

  lemma WriteIs(a: State, b: State, ops: seq<Op>)
    requires WriteStep(a, b, ops)
    ensures b.current == a.current && b.floor == a.floor
  {
    hide BatchEntries, SortedEntries;
  }

  lemma MoveIs(a: State, b: State, level: nat, f: FileMeta)
    requires Valid(a) && MoveStep(a, b, level, f)
    ensures AllEntries(b.current) == AllEntries(a.current) && b.floor == a.floor
    ensures Flushed(b) == Flushed(a) && (FlushedIsOlder(a) ==> FlushedIsOlder(b))
  {
    hide ValidVersion, AllEntries, SortedEntries, Selected, Replaces;
    MoveIsReplacement(a.current, level, f, b.current);
    SelectedShape(a.current, level, [f], []);
    MoveKeepsEntries(a.current, level, f, b.current);
    assert Tables(b) == Tables(a);
  }

  /** The steps that only rename or do nothing to entries. */
  lemma SilentIs(a: State, b: State, step: Step)
    requires Next(a, b, step)
    requires step.Switch? || step.FlushNothing? || step.TakeSnapshot? || step.ReleaseSnapshot?
    ensures AllEntries(b.current) == AllEntries(a.current) && b.floor == a.floor
    ensures Flushed(b) == Flushed(a) && (FlushedIsOlder(a) ==> FlushedIsOlder(b))
  {
    hide AllEntries;
    assert Tables(b) == Tables(a);
  }

  // ----- restarts -----

  lemma RestartKeeps(a: State, b: State)
    requires Valid(a) && FlushedIsOlder(a) && VersionFaithful(a) && RestartStep(a, b)
    ensures Valid(b) && FlushedIsOlder(b) && VersionFaithful(b) && Flushed(b) == Flushed(a)
  {
    FlushedIs(a);
    hide ValidVersion, AllEntries, SortedEntries, EntrySet, Unique, Read, NumbersBelow;
    assert Tables(b) == EntrySet(b.mem);
    assert Flushed(b) == Flushed(a);
    UniqueSubset(b.history, a.history);
    SameBelow(a, b);
  }

  /** A step of the store, or a crash. */
  datatype Event = Run(step: Step) | Restart

  ghost predicate Happens(a: State, b: State, event: Event) {
    match event
    case Run(step) => Next(a, b, step)
    case Restart => RestartStep(a, b)
  }

  ghost predicate IsLife(states: seq<State>, events: seq<Event>) {
    && |states| == |events| + 1 && Init(states[0])
    && forall i :: 0 < i < |states| ==> Happens(states[i - 1], states[i], events[i - 1])
  }

  lemma InitBelow(a: State)
    requires Init(a)
    ensures Valid(a) && FlushedIsOlder(a) && VersionFaithful(a)
  {
    InitIsValid(a);
    EmptyVersionIsValid(a.current);
    hide ValidVersion, AllEntries, Read;
    assert Flushed(a) == {};
  }

  /** After any number of crashes the order invariants hold, and reads are reads of the writes that survived, as long as
      no compaction brought a deleted value back. */
  lemma {:induction false} EveryStateOfLife(states: seq<State>, events: seq<Event>, i: nat)
    requires IsLife(states, events) && i < |states|
    requires forall k :: 0 <= k < i && events[k].Run? ==> !Uncareful(events[k].step)
    ensures Valid(states[i]) && FlushedIsOlder(states[i]) && VersionFaithful(states[i]) && Faithful(states[i])
  {
    hide Valid, FlushedIsOlder, VersionFaithful, Faithful, Init, Next, RestartStep, Uncareful;
    if i == 0 {
      InitBelow(states[0]);
    } else {
      EveryStateOfLife(states, events, i - 1);
      assert Happens(states[i - 1], states[i], events[i - 1]);
      match events[i - 1]
      case Run(step) => StepBelow(states[i - 1], states[i], step);
      case Restart => RestartKeeps(states[i - 1], states[i]);
    }
    FaithfulBelowIsFaithful(states[i]);
  }
}
