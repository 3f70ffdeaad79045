/** Running a compaction: picking inputs, dropping entries, cutting outputs (db/version_set.cc, db/db_impl.cc). */
module Compactions {
  import opened InternalKeys
  import opened Levels
  import opened InputSelection
  import opened CompactionInputs
  import opened Merging

  ghost predicate Covered(fs: seq<FileMeta>, user: UserKey) {
    exists f :: f in fs && f.smallest.user <= user <= f.largest.user
  }

  /** No level below the output level has a file whose range holds the user key. */
  ghost predicate BaseLevel(v: Version, level: nat, user: UserKey) {
    forall l :: level + 2 <= l < |v| ==> !Covered(v[l], user)
  }

  lemma NotCoveredPast(fs: seq<FileMeta>, p: nat, user: UserKey)
    requires ValidFiles(fs) && Disjoint(fs) && p <= |fs|
    requires forall i :: 0 <= i < p ==> fs[i].largest.user < user
    requires p < |fs| ==> user < fs[p].smallest.user
    ensures !Covered(fs, user)
  {
    forall i | 0 <= i < |fs| ensures !(fs[i].smallest.user <= user <= fs[i].largest.user) {
      if p < i {
        InOrder(fs, p, i);
      }
    }
  }

  /** A compaction in preparation: `Compaction` in db/version_set.h. */
  class Compaction {
    const version: Version
    const level: nat
    var inputs0: seq<FileMeta>
    var inputs1: seq<FileMeta>
    var grandparents: seq<FileMeta>
    var levelPtrs: array<nat>

    constructor (version: Version, level: nat, inputs0: seq<FileMeta>)
      ensures this.version == version && this.level == level && this.inputs0 == inputs0
      ensures inputs1 == [] && grandparents == []
      ensures fresh(levelPtrs) && levelPtrs.Length == NUM_LEVELS
      ensures forall l :: 0 <= l < NUM_LEVELS ==> levelPtrs[l] == 0
    {
      this.version := version;
      this.level := level;
      this.inputs0 := inputs0;
      inputs1, grandparents := [], [];
      levelPtrs := new nat[NUM_LEVELS](_ => 0);
    }

    /** `IsTrivialMove`. */
    method IsTrivialMove(maxOverlapBytes: nat) returns (r: bool)
      ensures r <==> |inputs0| == 1 && |inputs1| == 0 && TotalSize(grandparents) <= maxOverlapBytes
    {
      var sum := TotalFileSize(grandparents);
      r := |inputs0| == 1 && |inputs1| == 0 && sum <= maxOverlapBytes;
    }

    /** `SetupOtherInputs`; the result is the new compaction pointer of the level. */
    method SetupOtherInputs(expandedLimit: nat) returns (pointer: InternalKey)
      requires WellFormed(version) && Startable(version, level, inputs0)
      modifies this`inputs0, this`inputs1, this`grandparents
      ensures Selected(version, level, inputs0, inputs1)
      ensures Members(old(inputs0)) <= Members(inputs0)
      ensures IsLargestKey(inputs0, pointer)
      ensures IsSetUp(version, level, old(inputs0), inputs0, inputs1, expandedLimit)
      ensures level + 2 < NUM_LEVELS ==> Between(version[level + 2], inputs0 + inputs1, grandparents)
      ensures level + 2 >= NUM_LEVELS ==> grandparents == old(grandparents)
    {
      hide Expansion, Between, WellFormed, Selected, Startable, ValidFiles, Extends, IsSmallestKey,
           IsLargestKey, Closed, NoDuplicates, ContainsOverlapping, Overlapping, TotalSize;
      ghost var chosen := inputs0;
      StartableIs(version, level, chosen);
      LevelsAreValid(version, level);
      LevelsAreValid(version, level + 1);
      inputs0 := AddBoundaryInputs(version[level], inputs0);
      ExtendsIs(version[level], chosen, inputs0);
      var smallest, largest := GetRange(inputs0);
      inputs1 := GetOverlappingInputs(version[level + 1], level + 1, At(smallest.user), At(largest.user));
      ClosedSelects(version, level, chosen, inputs0, inputs1, smallest, largest);
      var allStart, allLimit := GetRange(inputs0 + inputs1);
      ghost var start := inputs0;
      BetweenIs(version[level + 1], inputs0, inputs1, smallest, largest);
      var grown, expanded0, expanded1;
      ghost var plain;
      grown, expanded0, expanded1, plain := ExpandInputs(version, level, inputs0, inputs1, allStart, allLimit,
                                                      expandedLimit);
      assert SetUpBy(version, level, chosen, inputs1, expandedLimit, start, plain, expanded0, grown);
      if grown {
        SelectedIs(version, level, expanded0, expanded1);
        inputs0, inputs1 := expanded0, expanded1;
        smallest, largest := GetRange(inputs0);
        allStart, allLimit := GetRange(inputs0 + inputs1);
      }
      if level + 2 < NUM_LEVELS {
        LevelsAreValid(version, level + 2);
        grandparents := GetOverlappingInputs(version[level + 2], level + 2, At(allStart.user), At(allLimit.user));
        BetweenIs(version[level + 2], inputs0 + inputs1, grandparents, allStart, allLimit);
      }
      pointer := largest;
    }

    /** Every file passed by a level pointer ends before `user`. */
    ghost predicate PointersBehind(user: UserKey)
      reads this, levelPtrs
    {
      && |version| == NUM_LEVELS && levelPtrs.Length == NUM_LEVELS
      && forall l :: level + 2 <= l < NUM_LEVELS ==>
           levelPtrs[l] <= |version[l]| && forall i :: 0 <= i < levelPtrs[l] ==> version[l][i].largest.user < user
    }

    lemma PointersStayBehind(user: UserKey, later: UserKey)
      requires PointersBehind(user) && user <= later
      ensures PointersBehind(later)
    {
    }

    /** `IsBaseLevelForKey`: the pointers only move forward, yet the answer is that of a full range check. */
    method IsBaseLevelForKey(user: UserKey) returns (r: bool)
      requires WellFormed(version) && level + 1 < NUM_LEVELS && PointersBehind(user)
      modifies levelPtrs
      ensures PointersBehind(user)
      ensures r <==> BaseLevel(version, level, user)
    {
      for l := level + 2 to NUM_LEVELS
        invariant PointersBehind(user)
        invariant forall m :: level + 2 <= m < l ==> !Covered(version[m], user)
      {
        var files := version[l];
        while levelPtrs[l] < |files|
          invariant PointersBehind(user)
        {
          var f := files[levelPtrs[l]];
          if user <= f.largest.user {
            if user >= f.smallest.user {
              return false;
            }
            break;
          }
          levelPtrs[l] := levelPtrs[l] + 1;
        }
        NotCoveredPast(files, levelPtrs[l], user);
      }
      return true;
    }
  }

  /** A newer entry for the same user key is itself visible at `snap`: rule (A) of the drop loop. */
  ghost predicate Hidden(input: seq<Entry>, snap: nat, e: Entry) {
    exists x :: x in input && x.key.user == e.key.user && e.key.sequence < x.key.sequence <= snap
  }

  ghost predicate Obsolete(v: Version, level: nat, snap: nat, e: Entry) {
    e.key.kind.Deletion? && e.key.sequence <= snap && BaseLevel(v, level, e.key.user)
  }

  ghost predicate Dropped(v: Version, level: nat, input: seq<Entry>, snap: nat, e: Entry) {
    Hidden(input, snap, e) || Obsolete(v, level, snap, e)
  }

  /** The entries among the first `n` that the compaction keeps. */
  ghost function Kept(v: Version, level: nat, input: seq<Entry>, snap: nat, n: nat): seq<Entry>
    requires n <= |input|
  {
    if n == 0 then []
    else if Dropped(v, level, input, snap, input[n - 1]) then Kept(v, level, input, snap, n - 1)
    else Kept(v, level, input, snap, n - 1) + [input[n - 1]]
  }

  function Flatten(parts: seq<seq<Entry>>): seq<Entry> {
    if parts == [] then [] else Flatten(parts[..|parts| - 1]) + parts[|parts| - 1]
  }

  lemma FlattenAppend(parts: seq<seq<Entry>>, part: seq<Entry>)
    ensures Flatten(parts + [part]) == Flatten(parts) + part
  {
    assert (parts + [part])[..|parts|] == parts;
  }

  lemma NothingCollected()
    ensures Collects([], [], [])
  {
  }

  lemma KeptNothing(v: Version, level: nat, input: seq<Entry>, snap: nat)
    ensures Kept(v, level, input, snap, 0) == []
  {
  }

  lemma KeptStep(v: Version, level: nat, input: seq<Entry>, snap: nat, i: nat)
    requires i < |input|
    ensures var before := Kept(v, level, input, snap, i);
            Kept(v, level, input, snap, i + 1) ==
              if Dropped(v, level, input, snap, input[i]) then before else before + [input[i]]
  {
  }

  datatype CurrentKey = NoKey | Current(user: UserKey)

  /** What a compaction leaves: entries that no newer entry of the input hides from the smallest snapshot, and that are
      no deletion which is at or below it and has nothing to hide further down. */
  ghost predicate Survives(v: Version, level: nat, input: seq<Entry>, snap: nat, e: Entry) {
    && e in input
    && (forall x :: x in input && x.key.user == e.key.user && x.key.sequence > e.key.sequence ==> x.key.sequence > snap)
    && (e.key.kind.Deletion? && e.key.sequence <= snap ==>
          exists l, f :: level + 2 <= l < |v| && f in v[l] && f.smallest.user <= e.key.user <= f.largest.user)
  }

  lemma DroppedOrSurvives(v: Version, level: nat, input: seq<Entry>, snap: nat, e: Entry)
    requires e in input
    ensures Survives(v, level, input, snap, e) <==> !Dropped(v, level, input, snap, e)
  {
  }

  lemma SurvivorsAreThere(v: Version, level: nat, input: seq<Entry>, snap: nat)
    ensures forall e :: Survives(v, level, input, snap, e) ==> e in input
  {
  }

  lemma {:induction false} KeptSurvive(v: Version, level: nat, input: seq<Entry>, snap: nat, n: nat)
    requires n <= |input|
    ensures forall e :: e in Kept(v, level, input, snap, n) <==> e in input[..n] && Survives(v, level, input, snap, e)
  {
    hide Dropped, Survives;
    if n > 0 {
      KeptSurvive(v, level, input, snap, n - 1);
      DroppedOrSurvives(v, level, input, snap, input[n - 1]);
      assert input[..n] == input[..n - 1] + [input[n - 1]];
    }
  }

  /** The drop loop of `DoCompactionWork`.  `ShouldStopBefore` and the size limit may cut the output anywhere. */
  method DoCompactionWork(c: Compaction, input: MergingIterator, smallestSnapshot: nat)
      returns (outputs: seq<seq<Entry>>)
    requires WellFormed(c.version) && c.level + 1 < NUM_LEVELS && c.levelPtrs.Length == NUM_LEVELS
    requires input.merged != [] ==> c.PointersBehind(input.merged[0].key.user)
    requires input.Inv() && SortedEntries(input.merged) && smallestSnapshot < MAX_SEQUENCE
    modifies c.levelPtrs, input, input.children
    ensures Flatten(outputs) == Kept(c.version, c.level, input.merged, smallestSnapshot, |input.merged|)
    ensures forall e :: e in Flatten(outputs) <==> Survives(c.version, c.level, input.merged, smallestSnapshot, e)
    ensures forall o :: o in outputs ==> o != []
  {
    hide WellFormed, SortedEntries, Dropped, Survives, BaseLevel, Compaction.PointersBehind, Collects, Flatten, Kept,
         MergingIterator.Inv;
    NothingCollected();
    ghost var v, level, es := c.version, c.level, input.merged;
    outputs := [];
    var current: seq<Entry> := [];
    var currentUserKey := NoKey;
    var lastSequenceForKey := MAX_SEQUENCE;
    KeptNothing(v, level, es, smallestSnapshot);
    input.SeekToFirst();
    while input.Valid()
      invariant input.Inv() && input.at <= |es|
      invariant Collects(outputs, current, Kept(v, level, es, smallestSnapshot, input.at))
      invariant currentUserKey == if input.at == 0 then NoKey else Current(es[input.at - 1].key.user)
      invariant lastSequenceForKey == if input.at == 0 then MAX_SEQUENCE else es[input.at - 1].key.sequence
      invariant input.at < |es| ==> c.PointersBehind(es[input.at].key.user)
      decreases |es| - input.at
    {
      var item := input.Item();
      ghost var i := input.at;
      var stopBefore: bool := *;
      if stopBefore && current != [] {
        OutputIsCut(outputs, current);
        outputs, current := outputs + [current], [];
      }
      var ikey := item.key;
      var drop := false;
      if currentUserKey.NoKey? || ikey.user != currentUserKey.user {
        currentUserKey := Current(ikey.user);
        lastSequenceForKey := MAX_SEQUENCE;
      }
      DropDecision(v, level, es, smallestSnapshot, i);
      KeptStep(v, level, es, smallestSnapshot, i);
      if lastSequenceForKey <= smallestSnapshot {
        drop := true;
      } else if ikey.kind.Deletion? && ikey.sequence <= smallestSnapshot {
        drop := c.IsBaseLevelForKey(ikey.user);
      }
      lastSequenceForKey := ikey.sequence;
      if !drop {
        OutputGrows(outputs, current, item);
        current := current + [item];
        var full: bool := *;
        if full {
          OutputIsCut(outputs, current);
          outputs, current := outputs + [current], [];
        }
      }
      if i + 1 < |es| {
        UserKeysAscend(es, i);
        c.PointersStayBehind(ikey.user, es[i + 1].key.user);
      }
      input.Next();
    }
    if current != [] {
      OutputIsCut(outputs, current);
      outputs := outputs + [current];
    }
    OutputIsComplete(outputs, Kept(v, level, es, smallestSnapshot, |es|));
    KeptSurvive(v, level, es, smallestSnapshot, |es|);
    assert es[..|es|] == es;
    SurvivorsAreThere(v, level, es, smallestSnapshot);
  }

  /** The finished outputs and the current one hold these entries. */
  ghost predicate Collects(outputs: seq<seq<Entry>>, current: seq<Entry>, entries: seq<Entry>) {
    Flatten(outputs) + current == entries && forall o :: o in outputs ==> o != []
  }

  lemma OutputIsCut(outputs: seq<seq<Entry>>, current: seq<Entry>)
    requires current != []
    ensures forall es :: Collects(outputs, current, es) ==> Collects(outputs + [current], [], es)
  {
    hide Flatten;
    FlattenAppend(outputs, current);
  }

  lemma OutputGrows(outputs: seq<seq<Entry>>, current: seq<Entry>, e: Entry)
    ensures forall es :: Collects(outputs, current, es) ==> Collects(outputs, current + [e], es + [e])
  {
    hide Flatten;
    assert Flatten(outputs) + current + [e] == Flatten(outputs) + (current + [e]);
  }

  lemma OutputIsComplete(outputs: seq<seq<Entry>>, es: seq<Entry>)
    requires Collects(outputs, [], es)
    ensures Flatten(outputs) == es && forall o :: o in outputs ==> o != []
  {
    hide Flatten;
  }

  /** What the drop loop has to find out. */
  lemma DropDecision(v: Version, level: nat, input: seq<Entry>, snap: nat, i: nat)
    requires SortedEntries(input) && i < |input|
    ensures Dropped(v, level, input, snap, input[i]) <==>
              || (i > 0 && input[i - 1].key.user == input[i].key.user && input[i - 1].key.sequence <= snap)
              || Obsolete(v, level, snap, input[i])
  {
    hide SortedEntries, Hidden, Obsolete;
    HiddenByPredecessor(input, snap, i);
  }

  lemma UserKeysAscend(input: seq<Entry>, i: nat)
    requires SortedEntries(input) && i + 1 < |input|
    ensures input[i].key.user <= input[i + 1].key.user
  {
    assert Ahead(input[i].key, input[i + 1].key);
  }

  /** Comparing with the preceding entry alone decides whether any newer visible entry exists. */
  lemma HiddenByPredecessor(input: seq<Entry>, snap: nat, i: nat)
    requires SortedEntries(input) && i < |input|
    ensures Hidden(input, snap, input[i]) <==>
              i > 0 && input[i - 1].key.user == input[i].key.user && input[i - 1].key.sequence <= snap
  {
    if Hidden(input, snap, input[i]) {
      var x :| x in input && x.key.user == input[i].key.user && input[i].key.sequence < x.key.sequence <= snap;
      var j :| 0 <= j < |input| && input[j] == x;
      assert j < i;
    }
    if i > 0 && input[i - 1].key.user == input[i].key.user && input[i - 1].key.sequence <= snap {
      assert Ahead(input[i - 1].key, input[i].key);
      assert input[i - 1] in input;
    }
  }
}
