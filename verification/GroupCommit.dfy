/** Group commit and the store (`DBImpl::Write`, db/db_impl.cc): every run of the queue of WriteQueue is a run of the
store of StoreSteps, with one write step for each group that is committed. */
module GroupCommit {
  import opened InternalKeys
  import opened MultiVersion
  import opened Levels
  import opened StoreSteps
  import Bytes
  import WriteBatches
  import WriteQueue
  import Database

  /** How the bytes of a batch stand for keys and values of the store. */
  datatype Naming = Naming(key: seq<Bytes.byte> -> UserKey, value: seq<Bytes.byte> -> string)

  function Named(n: Naming, op: WriteBatches.Op): Op {
    match op
    case Put(k, v) => Op.Put(n.key(k), n.value(v))
    case Delete(k) => Op.Delete(n.key(k))
  }

  function AllNamed(n: Naming, ops: seq<WriteBatches.Op>): (r: seq<Op>)
    ensures |r| == |ops| && forall i :: 0 <= i < |ops| ==> r[i] == Named(n, ops[i])
  {
    seq(|ops|, i requires 0 <= i < |ops| => Named(n, ops[i]))
  }

  /** The entries of the queue's memtable as entries of the store. */
  ghost function Stored(n: Naming, es: seq<WriteQueue.Entry>): set<Entry> {
    set e | e in es :: EntryOf(Named(n, e.op), e.sequence)
  }

  /** The store has been written what the queue has committed. */
  ghost predicate Matches(n: Naming, s: WriteQueue.System, a: State) {
    a.lastSequence == s.lastSequence && a.history == Stored(n, WriteQueue.EntriesOf(s.groups))
  }

  lemma StoredAppend(n: Naming, x: seq<WriteQueue.Entry>, y: seq<WriteQueue.Entry>)
    ensures Stored(n, x + y) == Stored(n, x) + Stored(n, y)
  {
  }

  lemma NumberedIsBatch(n: Naming, ops: seq<WriteBatches.Op>, start: nat)
    ensures Stored(n, WriteQueue.Numbered(ops, start)) == EntrySet(BatchEntries(AllNamed(n, ops), start))
  {
    var x, y := WriteQueue.Numbered(ops, start), BatchEntries(AllNamed(n, ops), start);
    hide BatchEntries, EntryOf, Named;
    forall e ensures e in Stored(n, x) <==> e in EntrySet(y) {
      if e in Stored(n, x) {
        var q :| q in x && e == EntryOf(Named(n, q.op), q.sequence);
        var i :| 0 <= i < |x| && x[i] == q;
        assert y[i] == e;
      }
      if e in EntrySet(y) {
        var i :| 0 <= i < |y| && y[i] == e;
        assert x[i] in x;
      }
    }
  }

  /** Committing a group is one write step. */
  lemma FinishIsWrite(n: Naming, s: WriteQueue.System, t: WriteQueue.System, a: State, b: State)
    requires WriteQueue.Inv(s) && WriteQueue.FinishStep(s, t) && Matches(n, s, a)
    requires WriteStep(a, b, AllNamed(n, WriteQueue.OpsOf(WriteQueue.GroupNow(s))))
    ensures Matches(n, t, b)
  {
    hide WriteQueue.Inv, WriteQueue.OpsOf, WriteQueue.EntriesOf, WriteQueue.Numbered, Stored, BatchEntries, EntrySet,
         AllNamed, SortedEntries;
    var group := WriteQueue.GroupNow(s);
    var ops, g := WriteQueue.OpsOf(group), WriteQueue.Group(s.lastSequence + 1, group);
    WriteQueue.HistoryGrows(s.groups, g);
    StoredAppend(n, WriteQueue.EntriesOf(s.groups), WriteQueue.Numbered(ops, s.lastSequence + 1));
    NumberedIsBatch(n, ops, s.lastSequence + 1);
  }

  /** Every other step of the queue leaves the store alone. */
  lemma OthersAreSilent(n: Naming, s: WriteQueue.System, t: WriteQueue.System, a: State)
    requires WriteQueue.Inv(s) && WriteQueue.Next(s, t) && !WriteQueue.FinishStep(s, t) && Matches(n, s, a)
    ensures Matches(n, t, a)
  {
    hide WriteQueue.Inv, WriteQueue.EntriesOf, Stored, WriteQueue.IsGroup;
    if WriteQueue.NoBatchStep(s, t) {
      var g := WriteQueue.Group(s.lastSequence + 1, [s.queue[0]]);
      WriteQueue.HistoryGrows(s.groups, g);
      NothingWritten(s.queue[0], s.lastSequence + 1);
      assert WriteQueue.EntriesOf(s.groups) + [] == WriteQueue.EntriesOf(s.groups);
    } else {
      assert t.groups == s.groups && t.lastSequence == s.lastSequence;
    }
  }

  lemma NothingWritten(w: WriteQueue.Writer, start: nat)
    requires w.batch.NoBatch?
    ensures WriteQueue.Numbered(WriteQueue.OpsOf([w]), start) == []
  {
    assert WriteQueue.OpsOf([w]) == WriteQueue.OpsOf([]) + WriteQueue.BatchOps(w);
  }

  /** A memtable takes one more entry that is newer than all it has. */
  lemma {:induction false} Inserted(mem: seq<Entry>, e: Entry) returns (r: seq<Entry>)
    requires SortedEntries(mem) && forall x :: x in mem ==> x.key.sequence < e.key.sequence
    ensures SortedEntries(r) && EntrySet(r) == EntrySet(mem) + {e}
  {
    var k := 0;
    while k < |mem| && Before(mem[k].key, e.key)
      invariant k <= |mem| && forall i :: 0 <= i < k ==> Before(mem[i].key, e.key)
    {
      k := k + 1;
    }
    forall i | 0 <= i < |mem| ensures if i < k then Ahead(mem[i].key, e.key) else Ahead(e.key, mem[i].key) {
      assert mem[i] in mem && (k < |mem| ==> mem[k] in mem);
    }
    hide SortedEntries, EntrySet;
    Database.InsertedIsSorted(mem, k, e);
    Database.InsertedEntries(mem, k, e);
    r := mem[..k] + [e] + mem[k..];
  }

  lemma {:induction false} AllInserted(mem: seq<Entry>, ops: seq<Op>, start: nat) returns (r: seq<Entry>)
    requires SortedEntries(mem) && forall x :: x in mem ==> x.key.sequence < start
    ensures SortedEntries(r) && EntrySet(r) == EntrySet(mem) + EntrySet(BatchEntries(ops, start))
    ensures forall x :: x in r ==> x.key.sequence < start + |ops|
  {
    hide SortedEntries;
    if ops == [] {
      r := mem;
    } else {
      var last := EntryOf(ops[|ops| - 1], start + |ops| - 1);
      var init := AllInserted(mem, ops[..|ops| - 1], start);
      r := Inserted(init, last);
      forall x | x in r ensures x.key.sequence < start + |ops| {
        assert x in EntrySet(r);
      }
    }
  }

  /** While there are sequence numbers left, a group can be written. */
  lemma WriteIsPossible(a: State, ops: seq<Op>) returns (b: State)
    requires Valid(a) && a.lastSequence + |ops| < MAX_SEQUENCE
    ensures WriteStep(a, b, ops)
  {
    hide SortedEntries, Valid, BatchEntries, EntrySet;
    Database.MemWithin(a);
    MemIsSorted(a);
    var mem := AllInserted(a.mem, ops, a.lastSequence + 1);
    b := a.(mem := mem, lastSequence := a.lastSequence + |ops|,
            history := a.history + EntrySet(BatchEntries(ops, a.lastSequence + 1)));
  }

  lemma MemIsSorted(a: State)
    requires Valid(a)
    ensures SortedEntries(a.mem)
  {
    hide SortedEntries, ValidVersion, NewerThan;
  }

  lemma EmptyMatches(n: Naming, s: WriteQueue.System, a: State)
    requires WriteQueue.Init(s) && Init(a)
    ensures Matches(n, s, a)
  {
  }

  lemma SequencesGrow(s: WriteQueue.System, t: WriteQueue.System)
    requires WriteQueue.Next(s, t)
    ensures t.lastSequence >= s.lastSequence
    ensures WriteQueue.FinishStep(s, t) ==>
              t.lastSequence == s.lastSequence + |WriteQueue.OpsOf(WriteQueue.GroupNow(s))|
  {
    hide WriteQueue.OpsOf, WriteQueue.IsGroup;
  }

  /** Every run of the queue is a run of the store. */
  lemma {:induction false} QueueRunIsStoreRun(n: Naming, run: seq<WriteQueue.System>, k: nat)
    returns (states: seq<State>, steps: seq<Step>)
    requires WriteQueue.IsRun(run) && k < |run| && run[k].lastSequence < MAX_SEQUENCE
    ensures IsRun(states, steps) && Matches(n, run[k], states[|steps|])
    ensures forall i :: 0 <= i < |steps| ==> steps[i].Write?
  {
    hide WriteQueue.Inv, WriteQueue.Next, WriteQueue.Init, WriteQueue.FinishStep, WriteQueue.OpsOf, Valid, WriteStep,
         Matches, Init;
    if k == 0 {
      var a := State([], NoTable, [[], [], [], [], [], [], []], 0, [], 2, {}, 0);
      EmptyIsInit(a);
      EmptyMatches(n, run[0], a);
      states, steps := [a], [];
    } else {
      var s, t := run[k - 1], run[k];
      assert WriteQueue.Next(run[k - 1], run[(k - 1) + 1]);
      SequencesGrow(s, t);
      WriteQueue.EveryReachableState(run, k - 1);
      states, steps := QueueRunIsStoreRun(n, run, k - 1);
      var a := states[|steps|];
      if WriteQueue.FinishStep(s, t) {
        var ops := AllNamed(n, WriteQueue.OpsOf(WriteQueue.GroupNow(s)));
        EveryReachableState(states, steps, |steps|);
        SameSequence(n, s, a);
        var b := WriteIsPossible(a, ops);
        FinishIsWrite(n, s, t, a, b);
        RunGrows(states, steps, b, Write(ops));
        states, steps := states + [b], steps + [Write(ops)];
      } else {
        OthersAreSilent(n, s, t, a);
      }
    }
  }

  lemma EmptyIsInit(a: State)
    requires a == State([], NoTable, [[], [], [], [], [], [], []], 0, [], 2, {}, 0)
    ensures Init(a)
  {
  }

  lemma SameSequence(n: Naming, s: WriteQueue.System, a: State)
    requires Matches(n, s, a)
    ensures a.lastSequence == s.lastSequence && a.history == Stored(n, WriteQueue.EntriesOf(s.groups))
  {
  }

  /** A reader whose snapshot is published reads the memtable of the queue, with whatever a leader is just inserting, as
      the flat map of the store. */
  lemma ReadersSeeTheStore(n: Naming, run: seq<WriteQueue.System>, k: nat, u: UserKey, s: nat)
    returns (states: seq<State>, steps: seq<Step>)
    requires WriteQueue.IsRun(run) && k < |run| && s <= run[k].lastSequence < MAX_SEQUENCE
    ensures IsRun(states, steps) && Matches(n, run[k], states[|steps|])
    ensures Seen(Read(Stored(n, run[k].table), u, s)) == Seen(Read(Store(states[|steps|]), u, s))
  {
    hide WriteQueue.Inv, WriteQueue.IsRun, Init, Next, Valid, Read, Stored, Matches, Store;
    WriteQueue.EveryReachableState(run, k);
    states, steps := QueueRunIsStoreRun(n, run, k);
    var q, a := run[k], states[|steps|];
    LastState(states, steps);
    SameSequence(n, q, a);
    PendingIsNewer(n, q);
    var pending := WriteQueue.PendingEntries(q.phase, WriteQueue.GroupNow(q), q.lastSequence);
    AboveSnapshot(a, Stored(n, pending), u, s);
    assert Agrees(a, u, s);
  }

  lemma LastState(states: seq<State>, steps: seq<Step>)
    requires IsRun(states, steps) && forall i :: 0 <= i < |steps| ==> steps[i].Write?
    ensures |states| == |steps| + 1 && Valid(states[|steps|]) && Faithful(states[|steps|]) && states[|steps|].floor == 0
  {
    hide Valid, Faithful, Init, Next;
    EveryReachableState(states, steps, |steps|);
    FloorStays(states, steps, |steps|);
  }

  lemma {:induction false} FloorStays(states: seq<State>, steps: seq<Step>, i: nat)
    requires IsRun(states, steps) && i <= |steps| && forall j :: 0 <= j < |steps| ==> steps[j].Write?
    ensures states[i].floor == 0
  {
    if i > 0 {
      FloorStays(states, steps, i - 1);
      assert Next(states[i - 1], states[(i - 1) + 1], steps[i - 1]);
    }
  }

  /** What is not published yet is above the last sequence number. */
  lemma PendingIsNewer(n: Naming, q: WriteQueue.System)
    requires WriteQueue.Inv(q)
    ensures var pending := WriteQueue.PendingEntries(q.phase, WriteQueue.GroupNow(q), q.lastSequence);
            && Stored(n, q.table) == Stored(n, WriteQueue.EntriesOf(q.groups)) + Stored(n, pending)
            && forall e :: e in Stored(n, pending) ==> e.key.sequence > q.lastSequence
  {
    hide WriteQueue.OpsOf, WriteQueue.EntriesOf, WriteQueue.Fifo, WriteQueue.PhaseValid, WriteQueue.SyncValid,
         WriteQueue.LogValid;
    var pending := WriteQueue.PendingEntries(q.phase, WriteQueue.GroupNow(q), q.lastSequence);
    StoredAppend(n, WriteQueue.EntriesOf(q.groups), pending);
  }

  /** Entries above a snapshot change no read at it. */
  lemma AboveSnapshot(a: State, N: set<Entry>, u: UserKey, s: nat)
    requires s <= a.lastSequence && forall e :: e in N ==> e.key.sequence > a.lastSequence
    requires Valid(a)
    ensures Read(a.history + N, u, s) == Read(a.history, u, s)
  {
    hide ValidVersion, Ordered, Unique, Read;
    SameNewest(a.history, N, u, s);
  }

  lemma SameNewest(S: set<Entry>, N: set<Entry>, u: UserKey, s: nat)
    requires Unique(S) && forall e :: e in N ==> e.key.sequence > s
    ensures Read(S + N, u, s) == Read(S, u, s)
  {
    assert forall e :: Covers(S + N, u, s, e) <==> Covers(S, u, s, e);
    if x :| Newest(S, u, s, x) {
      ReadIs(S, u, s, x);
      assert Newest(S + N, u, s, x);
      var y :| Newest(S + N, u, s, y) && Read(S + N, u, s) == ResultOf(y);
      assert Newest(S + N, u, s, y);
      assert Covers(S, u, s, y) && Covers(S, u, s, x);
    } else {
      assert forall e :: Newest(S + N, u, s, e) ==> Newest(S, u, s, e);
    }
  }

  // ----- the queue and the store together, with flushes and compactions at any time -----

  datatype Both = Both(queue: WriteQueue.System, store: State)

  /** A step of the queue, which writes to the store when it commits a group, or a step of the store in between. */
  datatype BothStep = Commit | Background(step: Step)

  ghost predicate BothNext(n: Naming, x: Both, y: Both, step: BothStep) {
    match step
    case Commit =>
      && WriteQueue.Next(x.queue, y.queue)
      && if WriteQueue.FinishStep(x.queue, y.queue) then
           WriteStep(x.store, y.store, AllNamed(n, WriteQueue.OpsOf(WriteQueue.GroupNow(x.queue))))
         else y.store == x.store
    case Background(s) => !s.Write? && y.queue == x.queue && Next(x.store, y.store, s)
  }

  ghost predicate IsBothRun(n: Naming, run: seq<Both>, steps: seq<BothStep>) {
    && |run| == |steps| + 1 && WriteQueue.Init(run[0].queue) && Init(run[0].store)
    && forall i :: 0 < i < |run| ==> BothNext(n, run[i - 1], run[i], steps[i - 1])
  }

  ghost predicate BackgroundUncovers(x: Both, step: BothStep) {
    step.Background? && Resurrecting(x.store, step.step)
  }

  /** Steps of the store in between change nothing that was written. */
  lemma BackgroundWritesNothing(n: Naming, q: WriteQueue.System, a: State, b: State, step: Step)
    requires Matches(n, q, a) && Next(a, b, step) && !step.Write?
    ensures Matches(n, q, b)
  {
    hide Stored, ValidFile, SmallestSnapshot;
  }

  lemma BothStepKeeps(n: Naming, x: Both, y: Both, step: BothStep)
    requires WriteQueue.Inv(x.queue) && Valid(x.store) && Matches(n, x.queue, x.store) && BothNext(n, x, y, step)
    ensures WriteQueue.Inv(y.queue) && Valid(y.store) && Matches(n, y.queue, y.store)
    ensures Faithful(x.store) ==> (Faithful(y.store) <==> !BackgroundUncovers(x, step))
  {
    hide WriteQueue.Inv, WriteQueue.Next, WriteQueue.FinishStep, Valid, Matches, WriteStep, Next, Faithful,
         Resurrecting;
    match step
    case Commit =>
      WriteQueue.StepKeeps(x.queue, y.queue);
      if WriteQueue.FinishStep(x.queue, y.queue) {
        var ops := AllNamed(n, WriteQueue.OpsOf(WriteQueue.GroupNow(x.queue)));
        WriteKeeps(x.store, y.store, ops);
        FinishIsWrite(n, x.queue, y.queue, x.store, y.store);
      } else {
        OthersAreSilent(n, x.queue, y.queue, x.store);
      }
    case Background(s) =>
      StepKeepsValid(x.store, y.store, s);
      BackgroundWritesNothing(n, x.queue, x.store, y.store, s);
  }

  /** Whatever the interleaving, the store has been written exactly what the queue has committed, and all reads of it
      have been reads of these writes exactly when no compaction uncovered a deleted value. */
  lemma {:induction false} EveryBothState(n: Naming, run: seq<Both>, steps: seq<BothStep>, k: nat)
    requires IsBothRun(n, run, steps) && k < |run|
    ensures WriteQueue.Inv(run[k].queue) && Valid(run[k].store) && Matches(n, run[k].queue, run[k].store)
    ensures (forall i :: 0 <= i <= k ==> Faithful(run[i].store)) <==>
              forall i :: 0 <= i < k ==> !BackgroundUncovers(run[i], steps[i])
  {
    hide WriteQueue.Inv, WriteQueue.Init, Valid, Faithful, Matches, Init, BothNext, BackgroundUncovers;
    if k == 0 {
      WriteQueue.InitHolds(run[0].queue);
      InitIsValid(run[0].store);
      EmptyMatches(n, run[0].queue, run[0].store);
    } else {
      EveryBothState(n, run, steps, k - 1);
      BothStepKeeps(n, run[k - 1], run[k], steps[k - 1]);
    }
  }

  /** A read from the floor up to the last sequence number finds in the store what the committed batches say, with
      whatever a leader is inserting, exactly when it agrees with the history. */
  lemma BothReadersSeeTheSame(n: Naming, run: seq<Both>, steps: seq<BothStep>, k: nat, u: UserKey, s: nat)
    requires IsBothRun(n, run, steps) && k < |run| && s <= run[k].queue.lastSequence
    ensures Seen(Read(Stored(n, run[k].queue.table), u, s)) == Seen(Read(Store(run[k].store), u, s)) <==>
              Agrees(run[k].store, u, s)
  {
    hide WriteQueue.Inv, IsBothRun, Valid, Read, Stored, Matches, Store;
    EveryBothState(n, run, steps, k);
    var q, a := run[k].queue, run[k].store;
    SameSequence(n, q, a);
    PendingIsNewer(n, q);
    AboveSnapshot(a, Stored(n, WriteQueue.PendingEntries(q.phase, WriteQueue.GroupNow(q), q.lastSequence)), u, s);
  }
}
