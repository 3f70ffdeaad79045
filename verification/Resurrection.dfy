/** A concrete run of the database that ends in the exceptional case of the compaction theorem. */
module Resurrection {
  import opened InternalKeys
  import opened MultiVersion
  import opened Levels
  import opened InputSelection
  import opened CompactionInputs
  import opened Compactions
  import opened CompactionSafety
  import opened StoreSteps

  const DELETED := Entry(InternalKey(2.0, 1, Value), "deleted")
  const TOMBSTONE := Entry(InternalKey(2.0, 2, Deletion), "")
  const OVERWRITTEN := Entry(InternalKey(1.0, 3, Value), "older")
  const KEPT := Entry(InternalKey(1.0, 4, Value), "newer")

  const FIRST := FileMeta(2, 1, OVERWRITTEN.key, DELETED.key, [OVERWRITTEN, TOMBSTONE, DELETED])
  const LOWER := FileMeta(3, 1, OVERWRITTEN.key, TOMBSTONE.key, [OVERWRITTEN, TOMBSTONE])
  const OMITTED := FileMeta(4, 1, DELETED.key, DELETED.key, [DELETED])
  const UPPER := FileMeta(5, 1, KEPT.key, KEPT.key, [KEPT])
  const OUTPUT := FileMeta(6, 1, KEPT.key, KEPT.key, [KEPT])

  const EMPTY: Version := [[], [], [], [], [], [], []]
  const FLUSHED: Version := [[], [], [FIRST], [], [], [], []]
  const CUT: Version := [[], [], [], [LOWER, OMITTED], [], [], []]
  const BEFORE: Version := [[], [], [UPPER], [LOWER, OMITTED], [], [], []]
  const AFTER: Version := [[], [], [], [OUTPUT, OMITTED], [], [], []]

  /** While a snapshot at 1 is live nothing is dropped; the output is cut between the two entries of user key 2. */
  const CUTTING := Job(FLUSHED, 2, [FIRST], [], [OVERWRITTEN, TOMBSTONE, DELETED], 1, [LOWER, OMITTED], CUT)

  /** With the smallest snapshot at 4 only the newest value of user key 1 is kept. */
  const DROPPING := Job(BEFORE, 2, [UPPER], [LOWER], [KEPT, OVERWRITTEN, TOMBSTONE], 4, [OUTPUT], AFTER)

  const FIRST_OPS := [StoreSteps.Put(2.0, "deleted")]
  const SECOND_OPS := [StoreSteps.Delete(2.0), StoreSteps.Put(1.0, "older")]
  const THIRD_OPS := [StoreSteps.Put(1.0, "newer")]

  // ----- the states of the run -----

  const START := State([], NoTable, EMPTY, 0, [], 2, {}, 0)
  const PUT := START.(mem := [DELETED], lastSequence := 1, history := {DELETED})
  const PINNED := PUT.(snapshots := [1])
  const REMOVED := PINNED.(mem := [OVERWRITTEN, TOMBSTONE, DELETED], lastSequence := 3,
                           history := {DELETED, TOMBSTONE, OVERWRITTEN})
  const FULL := REMOVED.(mem := [], imm := Table([OVERWRITTEN, TOMBSTONE, DELETED]))
  const STORED := FULL.(imm := NoTable, current := FLUSHED, nextFileNumber := 3)
  const SPLIT := STORED.(current := CUT, nextFileNumber := 5, floor := 1)
  const RELEASED := SPLIT.(snapshots := [])
  const AGAIN := RELEASED.(mem := [KEPT], lastSequence := 4, history := {DELETED, TOMBSTONE, OVERWRITTEN, KEPT})
  const FULL_AGAIN := AGAIN.(mem := [], imm := Table([KEPT]))
  const STORED_AGAIN := FULL_AGAIN.(imm := NoTable, current := BEFORE, nextFileNumber := 6)
  const LAST := STORED_AGAIN.(current := AFTER, nextFileNumber := 7, floor := 4)

  lemma FilesAreValid()
    ensures ValidFile(FIRST) && ValidFile(UPPER) && ValidFile(LOWER) && ValidFile(OMITTED) && ValidFile(OUTPUT)
  {
  }

  lemma Batches()
    ensures BatchEntries(FIRST_OPS, 1) == [DELETED]
    ensures BatchEntries(SECOND_OPS, 2) == [TOMBSTONE, OVERWRITTEN]
    ensures BatchEntries(THIRD_OPS, 4) == [KEPT]
  {
  }

  lemma FirstWrite()
    ensures WriteStep(START, PUT, FIRST_OPS)
  {
    Batches();
    hide BatchEntries;
  }

  lemma SecondWrite()
    ensures WriteStep(PINNED, REMOVED, SECOND_OPS)
  {
    Batches();
    hide BatchEntries;
  }

  lemma ThirdWrite()
    ensures WriteStep(RELEASED, AGAIN, THIRD_OPS)
  {
    Batches();
    hide BatchEntries;
  }

  lemma FirstFlush()
    ensures FlushStep(FULL, STORED, 2, FIRST)
  {
    FilesAreValid();
    hide ValidFile;
    forall k | 0 <= k <= 2 ensures !SomeOverlap(EMPTY, k, 1.0, 2.0) {
      assert EMPTY[k] == [];
    }
  }

  lemma SecondFlush()
    ensures FlushStep(FULL_AGAIN, STORED_AGAIN, 2, UPPER)
  {
    FilesAreValid();
    hide ValidFile;
    forall k | 0 <= k <= 2 ensures !SomeOverlap(CUT, k, 1.0, 1.0) {
      assert CUT[k] == [];
    }
  }

  // ----- the compaction that cuts -----

  lemma CuttingIsSelected()
    ensures Selected(FLUSHED, 2, [FIRST], [])
  {
    assert FIRST in [FIRST];
    assert IsSmallestKey([FIRST], OVERWRITTEN.key) && IsLargestKey([FIRST], DELETED.key);
    assert Overlapping([], At(1.0), At(2.0)) == [];
  }

  lemma CuttingOutputs()
    ensures ValidOutputs(FLUSHED, [FIRST], [], [LOWER, OMITTED])
  {
    FilesAreValid();
    hide ValidFile;
    forall f, e | f in [LOWER, OMITTED] && e in f.entries ensures FromInput([FIRST], [], e) {
      assert FIRST in [FIRST] + [] && e in FIRST.entries;
    }
  }

  lemma CuttingKeepsAll()
    ensures Compacts(CUTTING)
  {
    var input := CUTTING.input;
    assert FIRST in CUTTING.in0 + CUTTING.in1;
    forall e ensures e in input <==> FromInput(CUTTING.in0, CUTTING.in1, e) {
    }
    forall e ensures (exists f :: f in CUTTING.out && e in f.entries) <==> e in input && !Drops(CUTTING, e) {
      if e == OVERWRITTEN || e == TOMBSTONE {
        assert LOWER in CUTTING.out && e in LOWER.entries;
      }
      if e == DELETED {
        assert OMITTED in CUTTING.out && e in OMITTED.entries;
      }
    }
  }

  lemma CuttingStep()
    ensures CompactStep(STORED, SPLIT, CUTTING) && !Resurrecting(STORED, Compact(CUTTING))
  {
    hide Selected, ValidOutputs, Compacts, BaseLevel, Newest;
    CuttingIsSelected();
    CuttingOutputs();
    CuttingKeepsAll();
    assert FLUSHED[3] == [];
  }

  // ----- the compaction that drops -----

  /** The level-3 inputs are the files that overlap the level-2 input; the file that begins with the same user key
      as the last of them is left out. */
  lemma DroppingIsSelected()
    ensures Selected(BEFORE, 2, [UPPER], [LOWER])
  {
    var key := KEPT.key;
    assert UPPER in [UPPER];
    assert IsSmallestKey([UPPER], key) && IsLargestKey([UPPER], key);
    calc {
      Overlapping([LOWER, OMITTED], At(1.0), At(1.0));
      { assert [LOWER, OMITTED][..1] == [LOWER]; }
      Overlapping([LOWER], At(1.0), At(1.0));
      { assert [LOWER][..0] == []; }
      [LOWER];
    }
  }

  lemma NoDataBelow()
    ensures BaseLevel(BEFORE, 2, 2.0)
  {
    forall l | 4 <= l < |BEFORE| ensures !Covered(BEFORE[l], 2.0) {
      assert BEFORE[l] == [];
    }
  }

  lemma DroppingKeepsNewest()
    ensures Compacts(DROPPING)
  {
    NoDataBelow();
    hide BaseLevel;
    var input := DROPPING.input;
    assert KEPT in input && OVERWRITTEN in input && TOMBSTONE in input;
    assert Hidden(input, 4, OVERWRITTEN);
    assert Obsolete(BEFORE, 2, 4, TOMBSTONE);
    assert !Hidden(input, 4, KEPT);
    assert UPPER in DROPPING.in0 + DROPPING.in1 && LOWER in DROPPING.in0 + DROPPING.in1;
    forall e ensures e in input <==> FromInput(DROPPING.in0, DROPPING.in1, e) {
      assert KEPT in UPPER.entries && OVERWRITTEN in LOWER.entries && TOMBSTONE in LOWER.entries;
    }
    forall e ensures (exists f :: f in DROPPING.out && e in f.entries) <==> e in input && !Drops(DROPPING, e) {
      assert OUTPUT in DROPPING.out && KEPT in OUTPUT.entries;
    }
  }

  lemma DroppingOutputs()
    ensures ValidOutputs(BEFORE, [UPPER], [LOWER], [OUTPUT])
  {
    FilesAreValid();
    hide ValidFile;
    forall f, e | f in [OUTPUT] && e in f.entries ensures FromInput([UPPER], [LOWER], e) {
      assert UPPER in [UPPER] + [LOWER] && e in UPPER.entries;
    }
  }

  lemma DroppingStep()
    ensures CompactStep(STORED_AGAIN, LAST, DROPPING)
  {
    hide Selected, ValidOutputs, Compacts;
    DroppingIsSelected();
    DroppingOutputs();
    DroppingKeepsNewest();
  }

  lemma EntriesBefore(l: int, f: FileMeta, e: Entry)
    requires OnLevel(BEFORE, l, f, e)
    ensures e == KEPT || e == OVERWRITTEN || e == TOMBSTONE || (f == OMITTED && e == DELETED)
  {
  }

  lemma DeletionIsNewest()
    ensures Newest(AllEntries(BEFORE), 2.0, 4, TOMBSTONE)
  {
    assert TOMBSTONE in LOWER.entries;
    Located(BEFORE, 3, LOWER, TOMBSTONE);
    forall x | Covers(AllEntries(BEFORE), 2.0, 4, x) ensures x.key.sequence <= 2 {
      var l, f := Locate(BEFORE, x);
      EntriesBefore(l, f, x);
    }
  }

  lemma DeletionComesBack()
    ensures Resurrects(BEFORE, 2, [UPPER], [LOWER], 4, 2.0)
    ensures Uncovers(STORED_AGAIN, DROPPING, 2.0, 4)
  {
    NoDataBelow();
    DeletionIsNewest();
    hide BaseLevel, Newest, AllEntries;
    assert LOWER in [UPPER] + [LOWER] && TOMBSTONE in LOWER.entries;
    assert FromInput([UPPER], [LOWER], TOMBSTONE);
    assert NextOmitted(BEFORE, 2, [LOWER], TOMBSTONE, OMITTED);
    assert Tables(STORED_AGAIN) == {};
  }

  // ----- the run -----

  const RUN_TO_CUT := [(PUT, Write(FIRST_OPS)), (PINNED, TakeSnapshot), (REMOVED, Write(SECOND_OPS)), (FULL, Switch),
                       (STORED, FlushTo(2, FIRST)), (SPLIT, Compact(CUTTING))]

  const RUN_ON := [(RELEASED, ReleaseSnapshot(0)), (AGAIN, Write(THIRD_OPS)), (FULL_AGAIN, Switch),
                   (STORED_AGAIN, FlushTo(2, UPPER))]

  lemma RunToCut() returns (states: seq<State>, steps: seq<Step>)
    ensures IsRun(states, steps) && states[|steps|] == SPLIT && NeverResurrects(states, steps, |steps|)
  {
    hide WriteStep, FlushStep, CompactStep, Uncovers;
    FirstWrite();
    SecondWrite();
    FirstFlush();
    CuttingStep();
    states, steps := [START], [];
    for i := 0 to |RUN_TO_CUT|
      invariant IsRun(states, steps) && states[|steps|] == (if i == 0 then START else RUN_TO_CUT[i - 1].0)
      invariant NeverResurrects(states, steps, |steps|)
    {
      RunGrows(states, steps, RUN_TO_CUT[i].0, RUN_TO_CUT[i].1);
      states, steps := states + [RUN_TO_CUT[i].0], steps + [RUN_TO_CUT[i].1];
    }
  }

  lemma RunOn() returns (states: seq<State>, steps: seq<Step>)
    ensures IsRun(states, steps) && states[|steps|] == STORED_AGAIN && NeverResurrects(states, steps, |steps|)
  {
    hide WriteStep, FlushStep, CompactStep, Uncovers;
    ThirdWrite();
    SecondFlush();
    states, steps := RunToCut();
    for i := 0 to |RUN_ON|
      invariant IsRun(states, steps) && states[|steps|] == (if i == 0 then SPLIT else RUN_ON[i - 1].0)
      invariant NeverResurrects(states, steps, |steps|)
    {
      RunGrows(states, steps, RUN_ON[i].0, RUN_ON[i].1);
      states, steps := states + [RUN_ON[i].0], steps + [RUN_ON[i].1];
    }
  }

  /** A run, by steps that the store takes, in which all reads are faithful up to the last compaction; it brings a
      deleted key back: a read of user key 2 finds the deletion before it, and afterwards the deleted value. */
  lemma CompactionCanResurrect() returns (states: seq<State>, steps: seq<Step>)
    ensures IsRun(states, steps) && |steps| > 0
    ensures forall k :: 0 <= k < |steps| ==> Faithful(states[k])
    ensures var a, b := states[|steps| - 1], states[|steps|];
            && !Faithful(b) && Read(Store(a), 2.0, a.lastSequence) == Deleted
            && Read(Store(b), 2.0, b.lastSequence).Found?
  {
    hide Next, Valid, CompactStep, Uncovers, Resurrecting, Faithful, Store, Read;
    states, steps := RunOn();
    EveryReachableState(states, steps, |steps|);
    DroppingStep();
    DeletionComesBack();
    CompactKeeps(STORED_AGAIN, LAST, DROPPING);
    CompactChangesRead(STORED_AGAIN, LAST, DROPPING, 2.0, 4);
    StepIs(STORED_AGAIN, LAST, DROPPING);
    RunGrows(states, steps, LAST, Compact(DROPPING));
    states, steps := states + [LAST], steps + [Compact(DROPPING)];
  }

  lemma StepIs(a: State, b: State, c: Job)
    requires CompactStep(a, b, c)
    ensures Next(a, b, Compact(c))
  {
    hide CompactStep;
  }
}
