/** Recovery after a crash (`RecoverLogFile` in db/db_impl.cc): what group commit wrote, cut at any byte, is replayed
into the memtable. */
module Recovery {
  import opened Common
  import InternalKeys
  import opened Bytes
  import opened Coding
  import opened WriteBatches
  import opened WriteQueue
  import opened LogFormat
  import opened LogReader
  import opened LogRoundTrip

  /** The groups that left a record. */
  function Logged(groups: seq<Group>): seq<Group> {
    if groups == [] then [] else
      var g := groups[|groups| - 1];
      Logged(groups[..|groups| - 1]) + if RecordOf(g) == [] then [] else [g]
  }

  ghost predicate AllLogged(groups: seq<Group>) {
    forall i :: 0 <= i < |groups| ==> IsLogged(groups[i])
  }

  ghost predicate IsLogged(g: Group) {
    GroupRecordValid(g) && RecordOf(g) == [BatchBytes(g.start, OpsOf(g.writers))]
  }

  /** The groups with a record say as much as all groups. */
  ghost predicate SaysTheSame(logged: seq<Group>, groups: seq<Group>, last: nat) {
    && RecordsOf(logged) == RecordsOf(groups) && EntriesOf(logged) == EntriesOf(groups)
    && HistoryValid(logged, last) && AllLogged(logged) && |RecordsOf(groups)| == |logged|
  }

  lemma {:induction false} LoggedIsTheSame(groups: seq<Group>, last: nat)
    requires HistoryValid(groups, last)
    ensures SaysTheSame(Logged(groups), groups, last)
  {
    hide GroupRecordValid, HistoryValid, SaysTheSame, RecordOf, OpsOf, LastOf, EntriesOf, RecordsOf, WritersOf,
         AllLogged;
    if groups == [] {
      NothingLogged(last);
    } else {
      var init, g := groups[..|groups| - 1], groups[|groups| - 1];
      assert groups == init + [g];
      InitIsValid(groups, last);
      LoggedIsTheSame(init, LastOf(init));
      OneMoreLogged(Logged(init), init, g, LastOf(init));
    }
  }

  lemma NothingLogged(last: nat)
    requires HistoryValid([], last)
    ensures SaysTheSame([], [], last)
  {
  }

  lemma OneMoreLogged(logged: seq<Group>, groups: seq<Group>, g: Group, last: nat)
    requires SaysTheSame(logged, groups, last) && g.start == last + 1 && GroupRecordValid(g)
    requires last + |OpsOf(g.writers)| <= InternalKeys.MAX_SEQUENCE
    ensures SaysTheSame(logged + (if RecordOf(g) == [] then [] else [g]), groups + [g], last + |OpsOf(g.writers)|)
  {
    hide OpsOf, GroupRecordValid, BatchBytes, HistoryValid, EntriesOf, RecordsOf, LastOf, RecordOf, IsLogged;
    HistoryGrows(groups, g);
    if RecordOf(g) == [] {
      NoRecordNoOps(g);
      assert logged + [] == logged;
    } else {
      HistoryGrows(logged, g);
      ChainGrows(logged, g, last);
      HasOneRecord(g);
    }
  }

  lemma HasOneRecord(g: Group)
    requires GroupRecordValid(g) && RecordOf(g) != []
    ensures IsLogged(g) && |RecordOf(g)| == 1
  {
  }

  lemma InitIsValid(groups: seq<Group>, last: nat)
    requires HistoryValid(groups, last) && groups != []
    ensures var init := groups[..|groups| - 1]; var g := groups[|groups| - 1];
            && HistoryValid(init, LastOf(init)) && g.start == LastOf(init) + 1 && GroupRecordValid(g)
            && last == LastOf(init) + |OpsOf(g.writers)| <= InternalKeys.MAX_SEQUENCE
  {
    hide OpsOf, GroupRecordValid;
    var init := groups[..|groups| - 1];
    forall i | 0 <= i < |init| ensures init[i].start == LastOf(init[..i]) + 1 && GroupRecordValid(init[i]) {
      assert init[..i] == groups[..i] && init[i] == groups[i];
    }
  }

  lemma NoRecordNoOps(g: Group)
    requires GroupRecordValid(g) && RecordOf(g) == []
    ensures OpsOf(g.writers) == [] && Numbered(OpsOf(g.writers), g.start) == []
  {
    assert g.writers == [g.writers[0]];
    NoBatchGroup(g.writers[0], 1);
  }

  /** `WriteBatchInternal::InsertInto`: the memtable entries of one batch. */
  method InsertInto(ops: seq<Op>, start: nat, table: seq<Entry>) returns (table': seq<Entry>)
    ensures table' == table + Numbered(ops, start)
  {
    table' := table;
    var sequence := start;
    for i := 0 to |ops|
      invariant sequence == start + i && table' == table + Numbered(ops[..i], start)
    {
      table' := table' + [Entry(ops[i], sequence)];
      sequence := sequence + 1;
      OneMoreNumbered(ops, i, start);
    }
    assert ops[..|ops|] == ops;
  }

  /** Replays the records of a log. */
  method Replay(records: seq<seq<byte>>, ghost groups: seq<Group>)
      returns (table: seq<Entry>, maxSequence: nat, ok: bool)
    ensures HistoryValid(groups, LastOf(groups)) && AllLogged(groups) && records == RecordsOf(groups) ==>
              ok && table == EntriesOf(groups) && maxSequence == LastOf(groups)
  {
    hide *;
    HeaderIs12();
    ghost var good := HistoryValid(groups, LastOf(groups)) && AllLogged(groups) && records == RecordsOf(groups);
    table, maxSequence, ok := [], 0, true;
    if good {
      RecordsOfLogged(groups);
      NoGroups(groups);
    }
    for i := 0 to |records|
      invariant good ==> ok && |records| == |groups|
      invariant good ==> table == EntriesOf(groups[..i]) && maxSequence == LastOf(groups[..i])
    {
      if good {
        ReplayOne(groups, i);
      }
      if |records[i]| < 12 {
        ok := false;
      } else {
        var batch := new WriteBatch();
        batch.rep := records[i];
        ghost var g := if good then groups[i] else Group(0, []);
        if good {
          HoldsRecord(batch, g.start, OpsOf(g.writers));
          batch.HeaderIs(g.start, OpsOf(g.writers));
        }
        var parsed := batch.Iterate(g.start, OpsOf(g.writers));
        if parsed.Ops? {
          table := InsertInto(parsed.ops, batch.Sequence(), table);
          var lastSequence := batch.Sequence() + batch.Count() - 1;
          if lastSequence > maxSequence {
            maxSequence := lastSequence;
          }
        } else {
          return table, maxSequence, false;
        }
      }
    }
    assert good ==> groups[..|records|] == groups;
  }

  lemma HoldsRecord(batch: WriteBatch, sequence: nat, ops: seq<Op>)
    requires ValidOps(sequence, ops) && batch.rep == BatchBytes(sequence, ops)
    ensures batch.Holds(sequence, ops)
  {
  }

  lemma NoGroups(groups: seq<Group>)
    ensures EntriesOf(groups[..0]) == [] && LastOf(groups[..0]) == 0
  {
  }

  lemma {:induction false} RecordsOfLogged(groups: seq<Group>)
    requires AllLogged(groups)
    ensures |RecordsOf(groups)| == |groups|
    ensures forall i :: 0 <= i < |groups| ==>
              RecordsOf(groups)[i] == BatchBytes(groups[i].start, OpsOf(groups[i].writers))
  {
    hide OpsOf, BatchBytes, RecordOf, GroupRecordValid;
    if groups != [] {
      var init := groups[..|groups| - 1];
      assert forall i :: 0 <= i < |init| ==> init[i] == groups[i];
      RecordsOfLogged(init);
      assert IsLogged(groups[|groups| - 1]);
    }
  }

  lemma BatchBytesLong(sequence: nat, ops: seq<Op>)
    ensures |BatchBytes(sequence, ops)| >= 12
  {
    hide Fixed;
  }

  /** What one record adds. */
  lemma ReplayOne(groups: seq<Group>, i: nat)
    requires HistoryValid(groups, LastOf(groups)) && AllLogged(groups) && i < |groups|
    ensures var g := groups[i]; var ops := OpsOf(g.writers);
            && |RecordsOf(groups)| == |groups| && RecordsOf(groups)[i] == BatchBytes(g.start, ops)
            && |BatchBytes(g.start, ops)| >= 12
            && ValidOps(g.start, ops)
            && EntriesOf(groups[..i + 1]) == EntriesOf(groups[..i]) + Numbered(ops, g.start)
            && LastOf(groups[..i + 1]) == LastOf(groups[..i]) + |ops| == g.start + |ops| - 1
  {
    hide OpsOf, ValidOps, RecordsOf, EntriesOf, LastOf, BatchBytes, OpsBytes, Numbered;
    RecordsOfLogged(groups);
    assert IsLogged(groups[i]);
    BatchBytesLong(groups[i].start, OpsOf(groups[i].writers));
    assert groups[..i + 1] == groups[..i] + [groups[i]];
    HistoryGrows(groups[..i], groups[i]);
  }

  /** What the database may find after a crash in state `s`: the whole log, or the log up to some byte. */
  ghost function GroupsInLog(s: System): seq<Group> {
    Logged(s.groups) + if s.phase.Logged? || s.phase.Inserting? then [Group(s.lastSequence + 1, GroupNow(s))] else []
  }

  lemma GroupsInLogAreLogged(s: System)
    requires Inv(s)
    ensures AllLogged(GroupsInLog(s)) && HistoryValid(GroupsInLog(s), LastOf(GroupsInLog(s)))
    ensures RecordsOf(GroupsInLog(s)) == s.log
  {
    hide *;
    LogIs(s);
    LoggedIsTheSame(s.groups, s.lastSequence);
    var groups := Logged(s.groups);
    SaysWhat(groups, s.groups, s.lastSequence);
    if s.phase.Logged? || s.phase.Inserting? {
      var g := Group(s.lastSequence + 1, GroupNow(s));
      GroupNowIsLogged(s);
      HistoryGrows(groups, g);
      ChainGrows(groups, g, s.lastSequence);
      OneMoreIsLogged(groups, g);
    } else {
      assert GroupsInLog(s) == groups;
    }
  }

  lemma SaysWhat(logged: seq<Group>, groups: seq<Group>, last: nat)
    requires SaysTheSame(logged, groups, last)
    ensures HistoryValid(logged, last) && AllLogged(logged) && RecordsOf(logged) == RecordsOf(groups)
    ensures LastOf(logged) == last
  {
    hide OpsOf, AllLogged, RecordsOf, EntriesOf, LastOf, GroupRecordValid;
  }

  lemma OneMoreIsLogged(groups: seq<Group>, g: Group)
    requires AllLogged(groups) && IsLogged(g)
    ensures AllLogged(groups + [g])
  {
    hide IsLogged;
  }

  lemma LogIs(s: System)
    requires Inv(s)
    ensures HistoryValid(s.groups, s.lastSequence) && s.synced <= |s.log|
    ensures s.log == RecordsOf(s.groups) + Pending(s.phase, GroupNow(s), s.lastSequence)
    ensures var writing := s.phase.Logged? || s.phase.Inserting?;
            && (!writing ==> Pending(s.phase, GroupNow(s), s.lastSequence) == [])
            && GroupsInLog(s) == Logged(s.groups) + if writing then [Group(s.lastSequence + 1, GroupNow(s))] else []
  {
    hide RecordsOf, EntriesOf, Fifo, TableValid, PhaseValid, HistoryValid, OpsOf, BatchBytes, Logged, SyncedValid,
         GroupNow;
  }

  lemma GroupNowIsLogged(s: System)
    requires Inv(s) && (s.phase.Logged? || s.phase.Inserting?)
    ensures var g := Group(s.lastSequence + 1, GroupNow(s));
            && GroupRecordValid(g) && IsLogged(g) && RecordOf(g) == Pending(s.phase, GroupNow(s), s.lastSequence)
            && s.lastSequence + |OpsOf(g.writers)| <= InternalKeys.MAX_SEQUENCE
  {
    hide OpsOf, BatchBytes, Fifo, LogValid, TableValid, SyncValid, HistoryValid, ValidOps, GroupNow;
  }

  /** The history up to some group is valid as well. */
  lemma FirstGroupsAreValid(groups: seq<Group>, k: nat)
    requires HistoryValid(groups, LastOf(groups)) && AllLogged(groups) && k <= |groups|
    ensures HistoryValid(groups[..k], LastOf(groups[..k])) && AllLogged(groups[..k])
    ensures |RecordsOf(groups)| == |groups| && RecordsOf(groups[..k]) == RecordsOf(groups)[..k]
  {
    hide OpsOf, BatchBytes, RecordsOf, GroupRecordValid, IsLogged, LastOf;
    LastOfMonotone(groups, k);
    forall i | 0 <= i < k ensures groups[..k][i].start == LastOf(groups[..k][..i]) + 1 {
      assert groups[..k][..i] == groups[..i];
    }
    RecordsOfLogged(groups);
    RecordsOfLogged(groups[..k]);
  }

  /** Crash in any reachable state, with the log file cut at any byte that keeps what was synced: recovery reports no
      corruption, and what it rebuilds is exactly what some number of the first groups wrote, each group whole, with the
      matching last sequence; no group that was synced is missing. */
  method RecoverLogFile(ghost s: System, file: seq<byte>) returns (table: seq<Entry>, maxSequence: nat, ok: bool)
    requires Inv(s) && IsPrefix(file, LogBytes(s.log, 0)) && |LogBytes(s.log[..s.synced], 0)| <= |file|
    ensures ok
    ensures exists k: nat :: s.synced <= k <= |GroupsInLog(s)|
              && table == EntriesOf(GroupsInLog(s)[..k]) && maxSequence == LastOf(GroupsInLog(s)[..k])
    ensures |file| == |LogBytes(s.log, 0)| ==>
              table == EntriesOf(GroupsInLog(s)) && maxSequence == LastOf(GroupsInLog(s))
  {
    hide *;
    LogIs(s);
    ghost var groups := GroupsInLog(s);
    GroupsInLogAreLogged(s);
    RecordsOfLogged(groups);
    var reader := new Reader(file);
    LogIsRead(file, 0, s.log);
    var records := ReadAll(reader);
    CompleteRecordsIs(s.log, 0, |file|);
    ghost var k := CompleteRecords(s.log, 0, |file|);
    RecordsReadAre(s.log, k, |file|);
    FirstGroupsAreValid(groups, k);
    table, maxSequence, ok := Replay(records, groups[..k]);
    SyncedRecordsAreThere(s.log, s.synced, |file|, k);
    if |file| == |LogBytes(s.log, 0)| {
      WholeFileHasAll(s.log, k);
      assert groups[..k] == groups;
    }
  }

  lemma RecordsReadAre(log: seq<seq<byte>>, k: nat, size: nat)
    requires EndBefore(log, 0, size, k)
    ensures k <= |log|
  {
  }

  lemma SyncedRecordsAreThere(log: seq<seq<byte>>, synced: nat, size: nat, k: nat)
    requires synced <= |log| && |LogBytes(log[..synced], 0)| <= size && EndBefore(log, 0, size, k)
    ensures synced <= k
  {
    hide LogBytes;
    if k < synced {
      assert log[..synced][..k + 1] == log[..k + 1];
      FirstRecordsAreShorter(log[..synced], k + 1, 0);
    }
  }
}
