/** Group commit (`DBImpl::Write` and `BuildBatchGroup` in db/db_impl.cc): writers queue up, the first of them commits
a group of batches for itself and for writers behind it. */
module WriteQueue {
  import opened Common
  import InternalKeys
  import opened Bytes
  import opened WriteBatches

  /** `NoBatch` is the null batch that asks for a new memtable. */
  datatype Batch = NoBatch | Batch(ops: seq<Op>)

  datatype Writer = Writer(id: nat, batch: Batch, sync: bool)

  function BatchOps(w: Writer): seq<Op> {
    if w.batch.NoBatch? then [] else w.batch.ops
  }

  /** The operations of a group, in the order of its writers. */
  function OpsOf(writers: seq<Writer>): seq<Op> {
    if writers == [] then [] else OpsOf(writers[..|writers| - 1]) + BatchOps(writers[|writers| - 1])
  }

  function ByteSize(ops: seq<Op>): nat {
    HEADER + |OpsBytes(ops)|
  }

  /** The bytes that the writers' batches take one by one. */
  function SizeOf(writers: seq<Writer>): nat {
    if writers == [] then 0 else
      var w := writers[|writers| - 1];
      SizeOf(writers[..|writers| - 1]) + if w.batch.NoBatch? then 0 else ByteSize(w.batch.ops)
  }

  /** How large the group of a leader with a batch of `size` bytes may get. */
  function MaxSize(size: nat): nat {
    if size <= 131072 then size + 131072 else 1048576
  }

  /** A writer with a batch may join the `n` writers before it in the queue. */
  ghost predicate MayJoin(queue: seq<Writer>, n: nat)
    requires 0 < n < |queue|
  {
    && (queue[n].sync ==> queue[0].sync)
    && (queue[n].batch.Batch? ==> SizeOf(queue[..n + 1]) <= MaxSize(SizeOf(queue[..1])))
  }

  /** The first `n` writers form the group: all of them may join, and the next one may not. */
  ghost predicate IsGroup(queue: seq<Writer>, n: nat) {
    && 0 < n <= |queue|
    && (forall i :: 0 < i < n ==> MayJoin(queue, i))
    && (n < |queue| ==> !MayJoin(queue, n))
  }

  lemma TakeOneMore(queue: seq<Writer>, n: nat)
    requires n < |queue|
    ensures OpsOf(queue[..n + 1]) == OpsOf(queue[..n]) + BatchOps(queue[n])
    ensures SizeOf(queue[..n + 1]) == SizeOf(queue[..n]) + if queue[n].batch.NoBatch? then 0
              else ByteSize(queue[n].batch.ops)
  {
    assert queue[..n + 1][..n] == queue[..n];
  }

  function OpsUpTo(queue: seq<Writer>, n: nat): seq<Op>
    requires n <= |queue|
  {
    OpsOf(queue[..n])
  }

  function SizeUpTo(queue: seq<Writer>, n: nat): nat
    requires n <= |queue|
  {
    SizeOf(queue[..n])
  }

  lemma FirstOfGroup(queue: seq<Writer>)
    requires queue != [] && queue[0].batch.Batch?
    ensures OpsUpTo(queue, 1) == queue[0].batch.ops && SizeUpTo(queue, 1) == ByteSize(queue[0].batch.ops)
  {
    TakeOneMore(queue, 0);
  }

  /** How the loop of `BuildBatchGroup` finds out whether the next writer may join. */
  lemma NextOfGroup(queue: seq<Writer>, n: nat)
    requires 0 < n < |queue| && queue[0].batch.Batch?
    ensures queue[n].batch.NoBatch? ==>
              && OpsUpTo(queue, n + 1) == OpsUpTo(queue, n) && SizeUpTo(queue, n + 1) == SizeUpTo(queue, n)
              && (MayJoin(queue, n) <==> (queue[n].sync ==> queue[0].sync))
    ensures queue[n].batch.Batch? ==>
              && OpsUpTo(queue, n + 1) == OpsUpTo(queue, n) + queue[n].batch.ops
              && SizeUpTo(queue, n + 1) == SizeUpTo(queue, n) + ByteSize(queue[n].batch.ops)
              && (MayJoin(queue, n) <==>
                    (queue[n].sync ==> queue[0].sync) && SizeUpTo(queue, n + 1)
                        <= MaxSize(ByteSize(queue[0].batch.ops)))
  {
    hide ByteSize, MaxSize, OpsOf, SizeOf;
    TakeOneMore(queue, n);
    FirstOfGroup(queue);
  }

  lemma GroupEnds(queue: seq<Writer>, n: nat)
    requires 0 < n <= |queue| && forall i :: 0 < i < n ==> MayJoin(queue, i)
    requires n < |queue| ==> !MayJoin(queue, n)
    ensures IsGroup(queue, n) && OpsUpTo(queue, n) == OpsOf(queue[..n])
  {
    hide MayJoin;
  }

  /** A group of several batches takes 1 MB at most, and one with a small leader only 128 KB more than it; the writer
      after the group would exceed that, or asks for a sync that the leader does not make. */
  lemma {:induction false} GroupSize(queue: seq<Writer>, n: nat, i: nat)
    requires IsGroup(queue, n) && queue[0].batch.Batch? && 0 < i <= n
    ensures var first, size := SizeOf(queue[..1]), SizeOf(queue[..i]);
            && (first <= 131072 ==> size <= first + 131072)
            && (first > 131072 ==> size == first || size <= 1048576)
    ensures n < |queue| ==>
              || (queue[n].sync && !queue[0].sync)
              || (queue[n].batch.Batch? && var first, size := SizeOf(queue[..1]), SizeOf(queue[..n + 1]);
                  if first <= 131072 then size > first + 131072 else size > 1048576)
  {
    hide ByteSize, SizeOf;
    if i > 1 {
      GroupSize(queue, n, i - 1);
      TakeOneMore(queue, i - 1);
      assert MayJoin(queue, i - 1);
    }
  }

  method BuildBatchGroup(writers: seq<Writer>) returns (result: seq<Op>, count: nat)
    requires writers != [] && writers[0].batch.Batch?
    ensures IsGroup(writers, count) && result == OpsOf(writers[..count])
  {
    hide *;
    var first := writers[0];
    result := first.batch.ops;
    var size := ByteSize(first.batch.ops);
    FirstOfGroup(writers);
    var maxSize := MaxSize(size);
    count := 1;
    while count < |writers|
      invariant 0 < count <= |writers|
      invariant forall i :: 0 < i < count ==> MayJoin(writers, i)
      invariant result == OpsUpTo(writers, count) && size == SizeUpTo(writers, count)
    {
      var w := writers[count];
      NextOfGroup(writers, count);
      if w.sync && !first.sync {
        assert !MayJoin(writers, count);
        break;
      }
      if w.batch.Batch? {
        size := size + ByteSize(w.batch.ops);
        if size > maxSize {
          assert !MayJoin(writers, count);
          break;
        }
        result := result + w.batch.ops;
      }
      count := count + 1;
    }
    GroupEnds(writers, count);
  }

  // ----- the protocol -----

  /** An entry of the memtable. */
  datatype Entry = Entry(op: Op, sequence: nat)

  /** What a leader committed: its operations are numbered upward from `start`. */
  datatype Group = Group(start: nat, writers: seq<Writer>)

  function Numbered(ops: seq<Op>, start: nat): seq<Entry> {
    seq(|ops|, i requires 0 <= i < |ops| => Entry(ops[i], start + i))
  }

  function EntriesOf(groups: seq<Group>): seq<Entry> {
    if groups == [] then [] else
      var g := groups[|groups| - 1];
      EntriesOf(groups[..|groups| - 1]) + Numbered(OpsOf(g.writers), g.start)
  }

  /** A leader without a batch writes no record. */
  function RecordOf(g: Group): seq<seq<byte>> {
    if g.writers == [] || g.writers[0].batch.NoBatch? then [] else [BatchBytes(g.start, OpsOf(g.writers))]
  }

  function RecordsOf(groups: seq<Group>): seq<seq<byte>> {
    if groups == [] then [] else RecordsOf(groups[..|groups| - 1]) + RecordOf(groups[|groups| - 1])
  }

  function LastOf(groups: seq<Group>): nat {
    if groups == [] then 0 else LastOf(groups[..|groups| - 1]) + |OpsOf(groups[|groups| - 1].writers)|
  }

  function WritersOf(groups: seq<Group>): seq<Writer> {
    if groups == [] then [] else WritersOf(groups[..|groups| - 1]) + groups[|groups| - 1].writers
  }

  /** What the leader is doing: it has built its group of the first `count` writers, written the log record, synced
      the log if it wants to, inserted the first `inserted` operations into the memtable. */
  datatype Phase = Free | Built(count: nat) | Logged(count: nat) | Inserting(count: nat, inserted: nat)

  /** `arrived`, `done` and `groups` are the history, kept for the proof only. */
  datatype System = System(queue: seq<Writer>, phase: Phase, lastSequence: nat, log: seq<seq<byte>>, synced: nat,
                           table: seq<Entry>,
                           arrived: seq<Writer>, done: seq<Writer>, groups: seq<Group>)

  ghost predicate Init(s: System) {
    s == System([], Free, 0, [], 0, [], [], [], [])
  }

  /** A thread calls `Write`. */
  ghost predicate ArriveStep(s: System, t: System, w: Writer) {
    && w.id == |s.arrived| && (w.batch.Batch? ==> ValidOps(0, w.batch.ops))
    && t == s.(queue := s.queue + [w], arrived := s.arrived + [w])
  }

  /** The first writer builds its group; the mutex is held. */
  ghost predicate LeadStep(s: System, t: System, n: nat) {
    && s.phase == Free && s.queue != [] && s.queue[0].batch.Batch? && IsGroup(s.queue, n)
    && s.lastSequence + |OpsOf(s.queue[..n])| <= InternalKeys.MAX_SEQUENCE
    && t == s.(phase := Built(n))
  }

  /** The first writer has no batch: it is done once there is a new memtable. */
  ghost predicate NoBatchStep(s: System, t: System) {
    && s.phase == Free && s.queue != [] && s.queue[0].batch.NoBatch?
    && t == s.(queue := s.queue[1..], done := s.done + [s.queue[0]],
               groups := s.groups + [Group(s.lastSequence + 1, [s.queue[0]])])
  }

  /** `AddRecord`; the mutex is not held. */
  ghost predicate LogStep(s: System, t: System) {
    && s.phase.Built? && s.phase.count <= |s.queue|
    && t == s.(phase := Logged(s.phase.count), log := s.log
               + [BatchBytes(s.lastSequence + 1, OpsOf(s.queue[..s.phase.count]))])
  }

  ghost predicate SyncStep(s: System, t: System) {
    && s.phase.Logged? && s.queue != []
    && t == s.(phase := Inserting(s.phase.count, 0), synced := if s.queue[0].sync then |s.log| else s.synced)
  }

  /** One `MemTable::Add`. */
  ghost predicate InsertStep(s: System, t: System) {
    && s.phase.Inserting? && s.phase.count <= |s.queue|
    && var ops := OpsOf(s.queue[..s.phase.count]);
       && s.phase.inserted < |ops|
       && t == s.(phase := s.phase.(inserted := s.phase.inserted + 1),
                  table := s.table + [Entry(ops[s.phase.inserted], s.lastSequence + 1 + s.phase.inserted)])
  }

  /** The mutex is held again: the new last sequence is published and the writers of the group are done. */
  ghost predicate FinishStep(s: System, t: System) {
    && s.phase.Inserting? && s.phase.count <= |s.queue|
    && var group := s.queue[..s.phase.count];
       && s.phase.inserted == |OpsOf(group)|
       && t == s.(phase := Free, queue := s.queue[s.phase.count..], lastSequence := s.lastSequence + |OpsOf(group)|,
                  done := s.done + group, groups := s.groups + [Group(s.lastSequence + 1, group)])
  }

  ghost predicate Next(s: System, t: System) {
    || (exists w :: ArriveStep(s, t, w)) || (exists n: nat :: LeadStep(s, t, n))
    || NoBatchStep(s, t) || LogStep(s, t) || SyncStep(s, t) || InsertStep(s, t) || FinishStep(s, t)
  }

  // ----- the invariant -----

  /** Writers are done in the order in which they arrived, each once. */
  ghost predicate Fifo(done: seq<Writer>, queue: seq<Writer>, arrived: seq<Writer>, groups: seq<Group>) {
    && done + queue == arrived && WritersOf(groups) == done
    && (forall i :: 0 <= i < |arrived| ==> arrived[i].id == i)
    && (forall i :: 0 <= i < |arrived| && arrived[i].batch.Batch? ==> ValidOps(0, arrived[i].batch.ops))
  }

  /** The writers that the leader is committing. */
  function GroupNow(s: System): seq<Writer> {
    if s.phase.Free? || s.phase.count > |s.queue| then [] else s.queue[..s.phase.count]
  }

  /** These writers may be committed together. */
  ghost predicate GroupValid(group: seq<Writer>, lastSequence: nat) {
    && group != [] && group[0].batch.Batch?
    && (forall w :: w in group && w.sync ==> group[0].sync)
    && lastSequence + |OpsOf(group)| <= InternalKeys.MAX_SEQUENCE
    && ValidOps(lastSequence + 1, OpsOf(group))
  }

  ghost predicate PhaseValid(s: System) {
    s.phase.Free? ||
    (&& s.phase.count == |GroupNow(s)| && GroupValid(GroupNow(s), s.lastSequence)
     && (s.phase.Inserting? ==> s.phase.inserted <= |OpsOf(GroupNow(s))|))
  }

  /** The records written and not yet published. */
  function Pending(phase: Phase, group: seq<Writer>, lastSequence: nat): seq<seq<byte>> {
    if phase.Logged? || phase.Inserting? then [BatchBytes(lastSequence + 1, OpsOf(group))] else []
  }

  function PendingEntries(phase: Phase, group: seq<Writer>, lastSequence: nat): seq<Entry> {
    if phase.Inserting? && phase.inserted <= |OpsOf(group)|
        then Numbered(OpsOf(group)[..phase.inserted], lastSequence + 1) else []
  }

  ghost predicate LogValid(s: System) {
    s.log == RecordsOf(s.groups) + Pending(s.phase, GroupNow(s), s.lastSequence)
  }

  ghost predicate TableValid(s: System) {
    s.table == EntriesOf(s.groups) + PendingEntries(s.phase, GroupNow(s), s.lastSequence)
  }

  /** Groups have adjacent ranges of sequence numbers. */
  ghost predicate Chained(groups: seq<Group>) {
    forall i :: 0 <= i < |groups| ==> groups[i].start == LastOf(groups[..i]) + 1
  }

  ghost predicate GroupRecordValid(g: Group) {
    && g.writers != [] && ValidOps(g.start, OpsOf(g.writers)) && g.start > 0
    && (g.writers[0].batch.NoBatch? ==> |g.writers| == 1)
    && (forall w :: w in g.writers && w.sync ==> g.writers[0].sync)
  }

  ghost predicate HistoryValid(groups: seq<Group>, lastSequence: nat) {
    && lastSequence == LastOf(groups) && lastSequence <= InternalKeys.MAX_SEQUENCE && Chained(groups)
    && (forall i :: 0 <= i < |groups| ==> GroupRecordValid(groups[i]))
  }

  ghost predicate WantsSync(g: Group) {
    g.writers != [] && g.writers[0].sync && g.writers[0].batch.Batch?
  }

  /** The log records of groups with a sync leader have reached the disk. */
  ghost predicate SyncedValid(groups: seq<Group>, synced: nat) {
    forall i :: 0 <= i < |groups| && WantsSync(groups[i]) ==> |RecordsOf(groups[..i + 1])| <= synced
  }

  ghost predicate SyncValid(s: System) {
    && s.synced <= |s.log| && SyncedValid(s.groups, s.synced)
    && (s.phase.Inserting? && GroupNow(s) != [] && GroupNow(s)[0].sync ==> s.synced == |s.log|)
  }

  ghost predicate Inv(s: System) {
    Fifo(s.done, s.queue, s.arrived, s.groups) && PhaseValid(s) && LogValid(s) && TableValid(s)
        && HistoryValid(s.groups, s.lastSequence) && SyncValid(s)
  }

  lemma InitHolds(s: System)
    requires Init(s)
    ensures Inv(s)
  {
  }

  /** What has arrived does not change what a leader is doing. */
  lemma ArriveKeeps(s: System, t: System, w: Writer)
    requires Inv(s) && ArriveStep(s, t, w)
    ensures Inv(t)
  {
    hide HistoryValid, SyncedValid, ValidOps, RecordsOf, EntriesOf, WritersOf, OpsOf, GroupValid;
    assert GroupNow(t) == GroupNow(s);
    assert t.done + t.queue == s.done + s.queue + [w];
  }

  lemma NothingUpTo0(queue: seq<Writer>)
    ensures OpsOf(queue[..0]) == []
  {
  }

  lemma MaxSizeIsBounded(size: nat)
    ensures MaxSize(size) <= MAX_COUNT
  {
  }

  lemma ValidMeans(ops: seq<Op>)
    requires ValidOps(0, ops)
    ensures |ops| <= MAX_COUNT && forall op :: op in ops ==> Encodable(op)
  {
    hide Encodable;
  }

  lemma {:induction false} CountIsBounded(queue: seq<Writer>, n: nat, upTo: nat)
    requires IsGroup(queue, n) && queue[0].batch.Batch? && 0 < upTo <= n
    requires forall i :: 0 <= i < n && queue[i].batch.Batch? ==> ValidOps(0, queue[i].batch.ops)
    ensures |OpsOf(queue[..upTo])| <= MAX_COUNT && forall op :: op in OpsOf(queue[..upTo]) ==> Encodable(op)
  {
    hide OpsOf, SizeOf, Encodable, ByteSize, MaxSize, ValidOps;
    NothingUpTo0(queue);
    var i := upTo - 1;
    TakeOneMore(queue, i);
    MaxSizeIsBounded(SizeOf(queue[..1]));
    if queue[i].batch.Batch? {
      ValidMeans(queue[i].batch.ops);
    }
    if i == 0 {
      assert queue[..1] == queue[..0 + 1];
    } else {
      CountIsBounded(queue, n, i);
      if queue[i].batch.Batch? {
        assert MayJoin(queue, i);
        CountBelowSize(queue[..upTo]);
      }
    }
  }

  lemma {:induction false} CountBelowSize(writers: seq<Writer>)
    ensures |OpsOf(writers)| <= SizeOf(writers)
  {
    if writers != [] {
      CountBelowSize(writers[..|writers| - 1]);
      CountBelowBytes(BatchOps(writers[|writers| - 1]));
    }
  }

  lemma {:induction false} CountBelowBytes(ops: seq<Op>)
    ensures |ops| <= |OpsBytes(ops)|
  {
    hide OpBytes;
    if ops != [] {
      CountBelowBytes(ops[1..]);
      assert OpBytes(ops[0]) != [];
    }
  }

  /** A group never has more operations than the count of a batch can hold, and a sync writer never joins a non-sync
      leader. */
  lemma GroupIsValid(queue: seq<Writer>, n: nat, lastSequence: nat)
    requires IsGroup(queue, n) && queue[0].batch.Batch?
    requires forall i :: 0 <= i < n && queue[i].batch.Batch? ==> ValidOps(0, queue[i].batch.ops)
    requires lastSequence + |OpsOf(queue[..n])| <= InternalKeys.MAX_SEQUENCE
    ensures GroupValid(queue[..n], lastSequence)
  {
    hide OpsOf, SizeOf, Encodable;
    CountIsBounded(queue, n, n);
    forall w | w in queue[..n] && w.sync ensures queue[0].sync {
      var i :| 0 <= i < n && queue[i] == w;
      if i > 0 {
        assert MayJoin(queue, i);
      }
    }
  }

  lemma LeadKeeps(s: System, t: System, n: nat)
    requires Inv(s) && LeadStep(s, t, n)
    ensures Inv(t)
  {
    hide HistoryValid, SyncedValid, ValidOps, RecordsOf, EntriesOf, WritersOf, OpsOf, GroupValid, IsGroup;
    GroupFits(s.queue, n);
    forall i | 0 <= i < n && s.queue[i].batch.Batch? ensures ValidOps(0, s.queue[i].batch.ops) {
      assert s.arrived[|s.done| + i] == s.queue[i];
    }
    GroupIsValid(s.queue, n, s.lastSequence);
    assert GroupNow(t) == s.queue[..n];
  }

  /** One more group at the end of the history. */
  lemma HistoryGrows(groups: seq<Group>, g: Group)
    ensures EntriesOf(groups + [g]) == EntriesOf(groups) + Numbered(OpsOf(g.writers), g.start)
    ensures RecordsOf(groups + [g]) == RecordsOf(groups) + RecordOf(g)
    ensures LastOf(groups + [g]) == LastOf(groups) + |OpsOf(g.writers)|
    ensures WritersOf(groups + [g]) == WritersOf(groups) + g.writers
  {
    hide OpsOf, RecordOf, Numbered;
    assert (groups + [g])[..|groups|] == groups;
  }

  lemma PrefixOfGrown(groups: seq<Group>, g: Group, i: nat)
    requires i <= |groups|
    ensures (groups + [g])[..i] == groups[..i]
  {
  }

  lemma ChainGrows(groups: seq<Group>, g: Group, last: nat)
    requires HistoryValid(groups, last) && g.start == last + 1 && GroupRecordValid(g)
    requires last + |OpsOf(g.writers)| <= InternalKeys.MAX_SEQUENCE
    ensures HistoryValid(groups + [g], last + |OpsOf(g.writers)|)
  {
    hide RecordsOf, LastOf, GroupRecordValid, OpsOf;
    var all := groups + [g];
    HistoryGrows(groups, g);
    forall i | 0 <= i < |all| ensures all[i].start == LastOf(all[..i]) + 1 {
      PrefixOfGrown(groups, g, i);
      assert groups[..|groups|] == groups;
      assert i < |groups| ==> all[i] == groups[i];
    }
    forall i | 0 <= i < |all| ensures GroupRecordValid(all[i]) {
      assert i < |groups| ==> all[i] == groups[i];
    }
  }

  lemma SyncedGrows(groups: seq<Group>, g: Group, synced: nat)
    requires SyncedValid(groups, synced)
    requires WantsSync(g) ==> |RecordsOf(groups + [g])| <= synced
    ensures SyncedValid(groups + [g], synced)
  {
    hide RecordsOf, WantsSync;
    var all := groups + [g];
    assert all[..|all|] == all;
    forall i | 0 <= i < |all| && WantsSync(all[i]) ensures |RecordsOf(all[..i + 1])| <= synced {
      if i < |groups| {
        PrefixOfGrown(groups, g, i + 1);
        assert all[i] == groups[i];
      }
    }
  }

  lemma FifoGrows(s: System, group: seq<Writer>, g: Group)
    requires Fifo(s.done, s.queue, s.arrived, s.groups) && |group| <= |s.queue| && group == s.queue[..|group|]
    requires g.writers == group
    ensures Fifo(s.done + group, s.queue[|group|..], s.arrived, s.groups + [g])
  {
    hide ValidOps, WritersOf, EntriesOf, RecordsOf, LastOf, OpsOf;
    HistoryGrows(s.groups, g);
    assert s.queue == group + s.queue[|group|..];
  }

  lemma SequenceIsSmall(groups: seq<Group>, lastSequence: nat)
    requires HistoryValid(groups, lastSequence)
    ensures lastSequence <= InternalKeys.MAX_SEQUENCE
  {
  }

  lemma NoBatchKeeps(s: System, t: System)
    requires Inv(s) && NoBatchStep(s, t)
    ensures Inv(t)
  {
    hide Fifo, HistoryValid, SyncedValid, RecordsOf, EntriesOf, WritersOf, GroupValid, OpsOf, Numbered,
         GroupRecordValid;
    SequenceIsSmall(s.groups, s.lastSequence);
    var w := s.queue[0];
    var g := Group(s.lastSequence + 1, [w]);
    NoBatchGroup(w, s.lastSequence + 1);
    FifoGrows(s, [w], g);
    HistoryGrows(s.groups, g);
    ChainGrows(s.groups, g, s.lastSequence);
    SyncedGrows(s.groups, g, s.synced);
    assert GroupNow(t) == [] == GroupNow(s);
  }

  lemma NoBatchGroup(w: Writer, start: nat)
    requires w.batch.NoBatch? && 0 < start <= InternalKeys.MAX_SEQUENCE + 1
    ensures OpsOf([w]) == [] && Numbered(OpsOf([w]), start) == [] && GroupRecordValid(Group(start, [w]))
  {
    assert OpsOf([w]) == OpsOf([]) + BatchOps(w);
  }

  lemma LogKeeps(s: System, t: System)
    requires Inv(s) && LogStep(s, t)
    ensures Inv(t)
  {
    hide Fifo, HistoryValid, SyncedValid, RecordsOf, EntriesOf, WritersOf, OpsOf, GroupValid, BatchBytes;
    assert GroupNow(t) == GroupNow(s);
  }

  lemma SyncKeeps(s: System, t: System)
    requires Inv(s) && SyncStep(s, t)
    ensures Inv(t)
  {
    hide Fifo, HistoryValid, RecordsOf, EntriesOf, WritersOf, OpsOf, GroupValid, BatchBytes;
    assert GroupNow(t) == GroupNow(s);
    assert Numbered(OpsOf(GroupNow(t))[..0], t.lastSequence + 1) == [];
  }

  lemma InsertKeeps(s: System, t: System)
    requires Inv(s) && InsertStep(s, t)
    ensures Inv(t)
  {
    hide Fifo, HistoryValid, SyncedValid, RecordsOf, EntriesOf, WritersOf, OpsOf, GroupValid, BatchBytes;
    assert GroupNow(t) == GroupNow(s);
    var ops, i := OpsOf(GroupNow(s)), s.phase.inserted;
    OneMoreNumbered(ops, i, s.lastSequence + 1);
  }

  lemma OneMoreNumbered(ops: seq<Op>, i: nat, start: nat)
    requires i < |ops|
    ensures Numbered(ops[..i + 1], start) == Numbered(ops[..i], start) + [Entry(ops[i], start + i)]
  {
  }

  lemma FinishKeeps(s: System, t: System)
    requires Inv(s) && FinishStep(s, t)
    ensures Inv(t)
  {
    hide Fifo, HistoryValid, SyncedValid, RecordsOf, EntriesOf, WritersOf, OpsOf, BatchBytes;
    var group := GroupNow(s);
    var g := Group(s.lastSequence + 1, group);
    FifoGrows(s, group, g);
    HistoryGrows(s.groups, g);
    assert OpsOf(group)[..s.phase.inserted] == OpsOf(group);
    assert GroupRecordValid(g);
    assert RecordOf(g) == Pending(s.phase, group, s.lastSequence);
    ChainGrows(s.groups, g, s.lastSequence);
    SyncedGrows(s.groups, g, s.synced);
  }

  lemma StepKeeps(s: System, t: System)
    requires Inv(s) && Next(s, t)
    ensures Inv(t)
  {
    hide Inv, ArriveStep, LeadStep, NoBatchStep, LogStep, SyncStep, InsertStep, FinishStep;
    if w :| ArriveStep(s, t, w) {
      ArriveKeeps(s, t, w);
    } else if n: nat :| LeadStep(s, t, n) {
      LeadKeeps(s, t, n);
    } else if NoBatchStep(s, t) {
      NoBatchKeeps(s, t);
    } else if LogStep(s, t) {
      LogKeeps(s, t);
    } else if SyncStep(s, t) {
      SyncKeeps(s, t);
    } else if InsertStep(s, t) {
      InsertKeeps(s, t);
    } else {
      FinishKeeps(s, t);
    }
  }

  // ----- whole runs -----

  ghost predicate IsRun(run: seq<System>) {
    && |run| > 0 && Init(run[0])
    && forall i :: 0 <= i < |run| - 1 ==> Next(run[i], run[i + 1])
  }

  lemma {:induction false} EveryReachableState(run: seq<System>, k: nat)
    requires IsRun(run) && k < |run|
    ensures Inv(run[k])
  {
    hide Inv, Next;
    if k == 0 {
      InitHolds(run[0]);
    } else {
      EveryReachableState(run, k - 1);
      assert Next(run[k - 1], run[(k - 1) + 1]);
      StepKeeps(run[k - 1], run[k]);
    }
  }

  lemma StepGrows(s: System, t: System)
    requires Next(s, t)
    ensures IsPrefix(s.groups, t.groups) && IsPrefix(s.done, t.done) && IsPrefix(s.log, t.log)
    ensures IsPrefix(s.table, t.table)
    ensures s.synced <= |s.log| ==> s.synced <= t.synced
  {
    hide IsGroup, BatchBytes, OpsOf;
  }

  lemma {:induction false} RunGrows(run: seq<System>, i: nat, k: nat)
    requires IsRun(run) && i <= k < |run|
    ensures IsPrefix(run[i].groups, run[k].groups) && IsPrefix(run[i].table, run[k].table)
    ensures IsPrefix(run[i].done, run[k].done)
  {
    hide Next, Init;
    if i < k {
      RunGrows(run, i, k - 1);
      assert Next(run[k - 1], run[(k - 1) + 1]);
      StepGrows(run[k - 1], run[k]);
    }
  }

  lemma {:induction false} LastOfMonotone(groups: seq<Group>, j: nat)
    requires j <= |groups|
    ensures LastOf(groups[..j]) <= LastOf(groups)
  {
    hide OpsOf;
    if j == |groups| {
      assert groups[..j] == groups;
    } else {
      assert groups[..|groups| - 1][..j] == groups[..j];
      LastOfMonotone(groups[..|groups| - 1], j);
    }
  }

  /** Earlier groups have smaller sequence numbers; no number is used twice. */
  lemma GroupsAreApart(groups: seq<Group>, i: nat, j: nat)
    requires Chained(groups) && i < j < |groups|
    ensures groups[i].start + |OpsOf(groups[i].writers)| <= groups[j].start
  {
    hide OpsOf;
    assert groups[..i + 1][..i] == groups[..i] && groups[..i + 1][i] == groups[i];
    assert LastOf(groups[..i + 1]) == LastOf(groups[..i]) + |OpsOf(groups[i].writers)|;
    assert groups[..j][..i + 1] == groups[..i + 1];
    LastOfMonotone(groups[..j], i + 1);
  }

  /** Where the batch of a writer stands among the operations of its group. */
  lemma {:induction false} BatchStandsAt(writers: seq<Writer>, m: nat)
    requires m < |writers|
    ensures |OpsOf(writers[..m])| + |BatchOps(writers[m])| <= |OpsOf(writers)|
    ensures OpsOf(writers)[|OpsOf(writers[..m])|..][..|BatchOps(writers[m])|] == BatchOps(writers[m])
    decreases |writers|
  {
    var init := writers[..|writers| - 1];
    if m < |writers| - 1 {
      BatchStandsAt(init, m);
      assert init[..m] == writers[..m];
      var a, n := |OpsOf(writers[..m])|, |BatchOps(writers[m])|;
      assert OpsOf(writers)[a..][..n] == OpsOf(init)[a..][..n];
    }
  }

  /** A reader that takes the last sequence number of some moment as its snapshot sees each batch of any later moment
      wholly or not at all. */
  lemma BatchesAreAtomic(run: seq<System>, i: nat, k: nat, j: nat, m: nat)
    requires IsRun(run) && i <= k < |run| && j < |run[k].groups| && m < |run[k].groups[j].writers|
    ensures var g := run[k].groups[j];
            var n, first := |BatchOps(g.writers[m])|, g.start + |OpsOf(g.writers[..m])|;
            first + n - 1 <= run[i].lastSequence || run[i].lastSequence < first
  {
    hide Inv, OpsOf, BatchOps, Next, Init, Chained, GroupRecordValid, LastOf;
    EveryReachableState(run, k);
    EveryReachableState(run, i);
    RunGrows(run, i, k);
    HistoryIsValid(run[k]);
    HistoryIsValid(run[i]);
    BatchStandsAt(run[k].groups[j].writers, m);
    GroupsAreCommitted(run[k].groups, |run[i].groups|, j);
  }

  /** When `p` groups are committed, the others are above the last sequence number and these are not. */
  lemma GroupsAreCommitted(groups: seq<Group>, p: nat, j: nat)
    requires Chained(groups) && p <= |groups| && j < |groups|
    ensures j < p ==> groups[j].start + |OpsOf(groups[j].writers)| - 1 <= LastOf(groups[..p])
    ensures j >= p ==> LastOf(groups[..p]) < groups[j].start
  {
    hide OpsOf;
    if j < p {
      assert groups[..p][..j + 1] == groups[..j + 1];
      LastOfMonotone(groups[..p], j + 1);
      assert groups[..j + 1][..j] == groups[..j];
    } else {
      assert groups[..j][..p] == groups[..p];
      LastOfMonotone(groups[..j], p);
    }
  }

  lemma HistoryIsValid(s: System)
    requires Inv(s)
    ensures HistoryValid(s.groups, s.lastSequence)
  {
  }

  lemma EntriesUpTo(groups: seq<Group>)
    requires Chained(groups)
    ensures forall e :: e in EntriesOf(groups) ==> 0 < e.sequence <= LastOf(groups)
  {
    hide OpsOf;
    if groups != [] {
      var init := groups[..|groups| - 1];
      forall i | 0 <= i < |init| ensures init[i].start == LastOf(init[..i]) + 1 {
        assert init[..i] == groups[..i];
      }
      EntriesUpTo(init);
    }
  }

  /** What is in the memtable and visible is exactly what was committed; a group in flight is not visible. */
  lemma OnlyCommittedIsVisible(s: System, e: Entry)
    requires Inv(s)
    ensures e in s.table && e.sequence <= s.lastSequence <==> e in EntriesOf(s.groups)
  {
    hide OpsOf, Fifo, PhaseValid, SyncValid, LogValid, EntriesOf;
    assert Chained(s.groups);
    EntriesUpTo(s.groups);
  }

  /** Every writer that is done is the member of exactly one group, in the order of arrival. */
  lemma DoneInOrder(s: System)
    requires Inv(s)
    ensures WritersOf(s.groups) == s.done && IsPrefix(s.done, s.arrived)
    ensures forall i :: 0 <= i < |s.done| ==> s.done[i].id == i
  {
  }

  /** A sync writer is never committed by a non-sync leader, and when it is done its record is on the disk. */
  lemma SyncMeansDurable(s: System, j: nat, w: Writer)
    requires Inv(s) && j < |s.groups| && w in s.groups[j].writers && w.sync && w.batch.Batch?
    ensures s.groups[j].writers[0].sync
    ensures |RecordsOf(s.groups[..j + 1])| <= s.synced <= |s.log|
    ensures RecordsOf(s.groups[..j + 1]) == s.log[..|RecordsOf(s.groups[..j + 1])|]
    ensures |RecordsOf(s.groups[..j + 1])| > 0
    ensures RecordsOf(s.groups[..j + 1])[|RecordsOf(s.groups[..j + 1])| - 1]
              == BatchBytes(s.groups[j].start, OpsOf(s.groups[j].writers))
  {
    hide OpsOf, Fifo, PhaseValid, TableValid, RecordsOf, BatchBytes, Pending, LogValid, Chained, ValidOps;
    var g := s.groups[j];
    assert GroupRecordValid(g);
    assert WantsSync(g);
    RecordsOfPrefix(s.groups, j + 1);
    LastRecord(s.groups, j);
    LogHasRecords(s);
  }

  lemma LogHasRecords(s: System)
    requires LogValid(s)
    ensures IsPrefix(RecordsOf(s.groups), s.log)
  {
    hide RecordsOf, BatchBytes, OpsOf;
  }

  lemma LastRecord(groups: seq<Group>, j: nat)
    requires j < |groups| && groups[j].writers != [] && groups[j].writers[0].batch.Batch?
    ensures |RecordsOf(groups[..j + 1])| > 0
    ensures RecordsOf(groups[..j + 1])[|RecordsOf(groups[..j + 1])| - 1]
              == BatchBytes(groups[j].start, OpsOf(groups[j].writers))
  {
    hide RecordsOf, OpsOf, BatchBytes;
    assert groups[..j + 1] == groups[..j] + [groups[j]];
    HistoryGrows(groups[..j], groups[j]);
  }

  lemma {:induction false} RecordsOfPrefix(groups: seq<Group>, j: nat)
    requires j <= |groups|
    ensures IsPrefix(RecordsOf(groups[..j]), RecordsOf(groups))
  {
    hide RecordOf;
    if j == |groups| {
      assert groups[..j] == groups;
    } else {
      assert groups[..|groups| - 1][..j] == groups[..j];
      RecordsOfPrefix(groups[..|groups| - 1], j);
    }
  }

  lemma {:induction false} GroupExists(queue: seq<Writer>, n: nat) returns (m: nat)
    requires 0 < n <= |queue| && forall i :: 0 < i < n ==> MayJoin(queue, i)
    ensures IsGroup(queue, m)
    decreases |queue| - n
  {
    hide MayJoin;
    if n < |queue| && MayJoin(queue, n) {
      m := GroupExists(queue, n + 1);
    } else {
      m := n;
    }
  }

  /** There are sequence numbers left for all that wait. */
  ghost predicate Room(s: System) {
    s.lastSequence + |OpsOf(s.queue)| <= InternalKeys.MAX_SEQUENCE
  }

  /** A leader is never stuck: whatever the state, while there are writers the first of them can go on, as long as
      there are sequence numbers left. */
  lemma LeaderNeverStuck(s: System) returns (t: System)
    requires Inv(s) && s.queue != [] && Room(s)
    ensures Next(s, t) && t.arrived == s.arrived && t != s
  {
    hide OpsOf, Fifo, LogValid, TableValid, SyncValid, HistoryValid, BatchBytes, IsGroup, GroupValid;
    match s.phase
    case Free =>
      if s.queue[0].batch.NoBatch? {
        t := s.(queue := s.queue[1..], done := s.done + [s.queue[0]],
                groups := s.groups + [Group(s.lastSequence + 1, [s.queue[0]])]);
        assert NoBatchStep(s, t);
      } else {
        var n := GroupExists(s.queue, 1);
        GroupFits(s.queue, n);
        OpsOfPrefix(s.queue, n);
        t := s.(phase := Built(n));
        assert LeadStep(s, t, n);
      }
    case Built(n) =>
      t := s.(phase := Logged(n), log := s.log + [BatchBytes(s.lastSequence + 1, OpsOf(s.queue[..n]))]);
      assert LogStep(s, t);
    case Logged(n) =>
      t := s.(phase := Inserting(n, 0), synced := if s.queue[0].sync then |s.log| else s.synced);
      assert SyncStep(s, t);
    case Inserting(n, i) =>
      var ops := OpsOf(s.queue[..n]);
      if i < |ops| {
        t := s.(phase := Inserting(n, i + 1), table := s.table + [Entry(ops[i], s.lastSequence + 1 + i)]);
        assert InsertStep(s, t);
      } else {
        var group := s.queue[..n];
        t := s.(phase := Free, queue := s.queue[n..], lastSequence := s.lastSequence + |OpsOf(group)|,
                done := s.done + group, groups := s.groups + [Group(s.lastSequence + 1, group)]);
        assert FinishStep(s, t);
      }
  }

  lemma GroupFits(queue: seq<Writer>, n: nat)
    requires IsGroup(queue, n)
    ensures 0 < n <= |queue|
  {
  }

  lemma {:induction false} OpsOfPrefix(writers: seq<Writer>, n: nat)
    requires n <= |writers|
    ensures |OpsOf(writers[..n])| <= |OpsOf(writers)|
  {
    if n == |writers| {
      assert writers[..n] == writers;
    } else {
      assert writers[..|writers| - 1][..n] == writers[..n];
      OpsOfPrefix(writers[..|writers| - 1], n);
    }
  }

  // ----- every writer completes -----

  function PhaseRank(phase: Phase): nat {
    match phase case Free => 3 case Built(_) => 2 case Logged(_) => 1 case Inserting(_, _) => 0
  }

  /** Operations that the leader still has to insert. */
  function ToInsert(s: System): nat {
    var ops := OpsOf(GroupNow(s));
    if s.phase.Inserting? && s.phase.inserted <= |ops| then |ops| - s.phase.inserted else 0
  }

  /** `t` is closer than `s` to the end of the next group: a group is done, or the leader has less left to do. */
  ghost predicate Closer(s: System, t: System) {
    || |s.done| < |t.done|
    || (|s.done| == |t.done| && PhaseRank(t.phase) < PhaseRank(s.phase))
    || (|s.done| == |t.done| && PhaseRank(t.phase) == PhaseRank(s.phase) && ToInsert(t) < ToInsert(s))
  }

  /** Arrivals set no leader back, and every other step is progress. */
  lemma StepIsProgress(s: System, t: System)
    requires Inv(s) && Next(s, t)
    ensures if t.arrived == s.arrived then Closer(s, t)
            else |t.done| == |s.done| && t.phase == s.phase && ToInsert(t) == ToInsert(s)
  {
    hide OpsOf, LogValid, TableValid, SyncValid, HistoryValid, GroupValid, BatchBytes, IsGroup;
    if w :| ArriveStep(s, t, w) {
      assert GroupNow(t) == GroupNow(s);
    } else if InsertStep(s, t) {
      assert GroupNow(t) == GroupNow(s) == s.queue[..s.phase.count];
    } else if FinishStep(s, t) {
      GroupNotEmpty(s);
    }
  }

  lemma GroupNotEmpty(s: System)
    requires PhaseValid(s) && !s.phase.Free?
    ensures GroupNow(s) != []
  {
  }

  lemma {:induction false} OpsOfSplit(writers: seq<Writer>, n: nat)
    requires n <= |writers|
    ensures OpsOf(writers) == OpsOf(writers[..n]) + OpsOf(writers[n..])
    decreases |writers|
  {
    hide OpsOf, BatchOps;
    if n == |writers| {
      assert writers[..n] == writers && writers[n..] == [];
      OpsOfNothing();
    } else {
      var init, last := writers[..|writers| - 1], writers[|writers| - 1];
      OpsOfSplit(init, n);
      assert init[..n] == writers[..n];
      assert writers == init + [last] && writers[n..] == init[n..] + [last];
      OpsOfLast(init, last);
      OpsOfLast(init[n..], last);
    }
  }

  lemma OpsOfNothing()
    ensures OpsOf([]) == []
  {
  }

  lemma OpsOfLast(writers: seq<Writer>, last: Writer)
    ensures OpsOf(writers + [last]) == OpsOf(writers) + BatchOps(last)
  {
    assert (writers + [last])[..|writers|] == writers;
  }

  lemma RoomStays(s: System, t: System)
    requires Inv(s) && Room(s) && Next(s, t) && t.arrived == s.arrived
    ensures Room(t)
  {
    hide OpsOf, Fifo, LogValid, TableValid, SyncValid, HistoryValid, GroupValid, BatchBytes, IsGroup;
    if s.phase.Inserting? && s.phase.count <= |s.queue| {
      OpsOfSplit(s.queue, s.phase.count);
    }
    if s.queue != [] {
      OpsOfSplit(s.queue, 1);
    }
  }

  /** Every writer that has arrived completes: from any state the leaders alone bring it to its end. */
  lemma {:induction false} EveryWriterCompletes(s: System, id: nat) returns (run: seq<System>)
    requires Inv(s) && Room(s) && id < |s.arrived|
    ensures run != [] && run[0] == s
    ensures forall i :: 0 < i < |run| ==> Next(run[i - 1], run[i]) && run[i].arrived == s.arrived
    ensures |run[|run| - 1].done| > id && run[|run| - 1].done[id] == s.arrived[id]
    decreases |s.arrived| - |s.done|, PhaseRank(s.phase), ToInsert(s)
  {
    hide LogValid, TableValid, SyncValid, HistoryValid, PhaseValid, Next, ToInsert, Room;
    if |s.done| > id {
      run := [s];
    } else {
      var t := LeaderNeverStuck(s);
      StepIsProgress(s, t);
      StepKeeps(s, t);
      RoomStays(s, t);
      var rest := EveryWriterCompletes(t, id);
      run := [s] + rest;
    }
  }
}
