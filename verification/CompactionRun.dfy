/** From chosen inputs to output files: the merged input iterator and the files that the drop loop leaves
    (`MakeInputIterator` in db/version_set.cc, `FinishCompactionOutputFile` in db/db_impl.cc). */
module CompactionRun {
  import opened InternalKeys
  import opened MultiVersion
  import opened Levels
  import opened InputSelection
  import opened CompactionInputs
  import opened Compactions
  import opened CompactionSafety
  import opened Merging

  /** The run that a concatenating iterator walks over. */
  function Concat(files: seq<FileMeta>): seq<Entry> {
    if files == [] then [] else Concat(files[..|files| - 1]) + files[|files| - 1].entries
  }

  lemma {:induction false} ConcatIsSorted(files: seq<FileMeta>)
    requires ValidFiles(files) && Disjoint(files)
    ensures SortedEntries(Concat(files))
    ensures forall e :: e in Concat(files) <==> exists f :: f in files && e in f.entries
  {
    if files != [] {
      var rest, last := files[..|files| - 1], files[|files| - 1];
      assert files == rest + [last];
      ConcatIsSorted(rest);
      assert ValidFile(last);
      forall a, b | a in Concat(rest) && b in last.entries ensures Ahead(a.key, b.key) {
        var f :| f in rest && a in f.entries;
        FileBounds(f, a);
        FileBounds(last, b);
      }
      AppendIsSorted(Concat(rest), last.entries);
    }
  }

  lemma AppendIsSorted(a: seq<Entry>, b: seq<Entry>)
    requires SortedEntries(a) && SortedEntries(b)
    requires forall x, y :: x in a && y in b ==> Ahead(x.key, y.key)
    ensures SortedEntries(a + b)
  {
  }

  lemma SortedByBoth(es: seq<Entry>)
    requires SortedEntries(es)
    ensures SortedKeys(es)
  {
  }

  /** A merged list of entries without repeated versions is sorted by decreasing sequence number within a key. */
  lemma MergedIsSorted(merged: seq<Entry>)
    requires SortedKeys(merged) && Unique(EntrySet(merged))
    ensures SortedEntries(merged)
  {
    forall i, j | 0 <= i < j < |merged| ensures Ahead(merged[i].key, merged[j].key) {
      assert merged[i] in EntrySet(merged) && merged[j] in EntrySet(merged);
      BeforeIsStrictTotalOrder(merged[i].key, merged[j].key, merged[i].key);
    }
  }

  /** The runs that `MakeInputIterator` merges: on level 0 one per file, above it one for all files. */
  function InputRuns(level: nat, in0: seq<FileMeta>, in1: seq<FileMeta>): seq<seq<Entry>> {
    (if level == 0 then seq(|in0|, i requires 0 <= i < |in0| => in0[i].entries) else [Concat(in0)])
    + (if in1 == [] then [] else [Concat(in1)])
  }

  /** An entry of an input run comes from an input file; different runs have different files. */
  lemma RunHome(v: Version, level: nat, in0: seq<FileMeta>, in1: seq<FileMeta>, i: nat, e: Entry)
      returns (l: nat, f: FileMeta)
    requires WellFormed(v) && Selected(v, level, in0, in1)
    requires i < |InputRuns(level, in0, in1)| && e in InputRuns(level, in0, in1)[i]
    ensures OnLevel(v, l, f, e) && InputFile(level, in0, in1, l, f)
    ensures l == level + 1 <==> i == |InputRuns(level, in0, in1)| - 1 && in1 != []
    ensures level == 0 && l == 0 ==> i < |in0| && f == in0[i]
  {
    hide WellFormed, SortedEntries, ValidFiles, Disjoint, Selected, Concat;
    RunsAreSorted(v, level, in0, in1);
    SelectedMembers(v, level, in0, in1);
    if i == |InputRuns(level, in0, in1)| - 1 && in1 != [] {
      l := level + 1;
      f :| f in in1 && e in f.entries;
    } else if level == 0 {
      l, f := 0, in0[i];
    } else {
      l := level;
      f :| f in in0 && e in f.entries;
    }
  }

  lemma SelectedMembers(v: Version, level: nat, in0: seq<FileMeta>, in1: seq<FileMeta>)
    requires Selected(v, level, in0, in1)
    ensures level + 1 < |v|
    ensures forall f :: f in in0 ==> f in v[level]
    ensures forall f :: f in in1 ==> f in v[level + 1]
  {
    forall f | f in in0 ensures f in v[level] {
      assert f in Members(in0);
    }
  }

  lemma RunsAreSorted(v: Version, level: nat, in0: seq<FileMeta>, in1: seq<FileMeta>)
    requires WellFormed(v) && Selected(v, level, in0, in1)
    ensures forall i :: 0 <= i < |InputRuns(level, in0, in1)| ==> SortedEntries(InputRuns(level, in0, in1)[i])
    ensures forall e :: e in Concat(in1) <==> exists f :: f in in1 && e in f.entries
    ensures level > 0 ==> forall e :: e in Concat(in0) <==> exists f :: f in in0 && e in f.entries
  {
    hide WellFormed, ValidFiles, Disjoint, Selected, SortedEntries, Concat;
    SelectedIsDisjoint(v, level, in0, in1);
    ConcatIsSorted(in1);
    if level > 0 {
      ConcatIsSorted(in0);
    }
    forall i | 0 <= i < |InputRuns(level, in0, in1)| ensures SortedEntries(InputRuns(level, in0, in1)[i]) {
      if level == 0 && i < |in0| {
        FileIsSorted(in0, i);
      }
    }
  }

  lemma FileIsSorted(fs: seq<FileMeta>, i: nat)
    requires ValidFiles(fs) && i < |fs|
    ensures SortedEntries(fs[i].entries)
  {
    assert ValidFile(fs[i]);
  }

  lemma SelectedIsDisjoint(v: Version, level: nat, in0: seq<FileMeta>, in1: seq<FileMeta>)
    requires WellFormed(v) && Selected(v, level, in0, in1)
    ensures ValidFiles(in0) && ValidFiles(in1) && Disjoint(in1) && (level > 0 ==> Disjoint(in0))
  {
    SelectedMembers(v, level, in0, in1);
    hide Closed, Convex, BoundaryClosed, SortedEntries;
    var lo, hi :| IsSmallestKey(in0, lo) && IsLargestKey(in0, hi)
        && in1 == Overlapping(v[level + 1], At(lo.user), At(hi.user));
    OverlappingIsDisjoint(v[level + 1], At(lo.user), At(hi.user));
  }

  lemma RunsAreDistinct(v: Version, level: nat, in0: seq<FileMeta>, in1: seq<FileMeta>)
    requires ValidVersion(v) && Selected(v, level, in0, in1)
    ensures DistinctKeys(InputRuns(level, in0, in1))
  {
    var runs := InputRuns(level, in0, in1);
    forall i, j, a: Entry, b: Entry | 0 <= i < |runs| && 0 <= j < |runs| && i != j && a in runs[i] && b in runs[j]
      ensures a.key != b.key
    {
      RunsDiffer(v, level, in0, in1, i, j, a, b);
    }
  }

  lemma RunsDiffer(v: Version, level: nat, in0: seq<FileMeta>, in1: seq<FileMeta>, i: nat, j: nat, a: Entry, b: Entry)
    requires ValidVersion(v) && Selected(v, level, in0, in1)
    requires i < |InputRuns(level, in0, in1)| && j < |InputRuns(level, in0, in1)| && i != j
    requires a in InputRuns(level, in0, in1)[i] && b in InputRuns(level, in0, in1)[j]
    ensures a.key != b.key
  {
    hide WellFormed, DistinctNumbers, Layered, Closed, Convex, BoundaryClosed, Between;
    var l, f := RunHome(v, level, in0, in1, i, a);
    var m, g := RunHome(v, level, in0, in1, j, b);
    if a.key == b.key {
      OneHome(v, l, f, a, m, g, b);
    }
  }

  /** The merged inputs hold exactly the entries of the input files, sorted. */
  lemma MergedInputs(v: Version, level: nat, in0: seq<FileMeta>, in1: seq<FileMeta>, merged: seq<Entry>)
    requires ValidVersion(v) && Selected(v, level, in0, in1) && IsUnion(InputRuns(level, in0, in1), merged)
    ensures SortedEntries(merged)
    ensures forall e :: e in merged <==> FromInput(in0, in1, e)
  {
    hide ValidVersion, WellFormed, Selected, SortedEntries;
    forall e ensures e in merged <==> FromInput(in0, in1, e) {
      MergedEntry(v, level, in0, in1, merged, e);
    }
    forall e | e in merged ensures e in AllEntries(v) {
      ValidIsWellFormed(v);
      var l, f := HomeOfInput(v, level, in0, in1, e);
      Located(v, l, f, e);
    }
    EntriesAreUnique(v);
    hide AllEntries, FromInput;
    assert EntrySet(merged) <= AllEntries(v);
    MergedIsSorted(merged);
  }

  lemma ValidIsWellFormed(v: Version)
    requires ValidVersion(v)
    ensures WellFormed(v)
  {
  }

  lemma MergedEntry(v: Version, level: nat, in0: seq<FileMeta>, in1: seq<FileMeta>, merged: seq<Entry>, e: Entry)
    requires ValidVersion(v) && Selected(v, level, in0, in1) && IsUnion(InputRuns(level, in0, in1), merged)
    ensures e in merged <==> FromInput(in0, in1, e)
  {
    hide WellFormed, DistinctNumbers, Layered, Selected;
    var runs := InputRuns(level, in0, in1);
    if e in merged {
      var i :| 0 <= i < |runs| && e in runs[i];
      var l, f := RunHome(v, level, in0, in1, i, e);
      assert f in in0 + in1;
    }
    if FromInput(in0, in1, e) {
      RunsAreSorted(v, level, in0, in1);
      var f :| f in in0 + in1 && e in f.entries;
      if f in in1 {
        assert e in runs[|runs| - 1];
      } else if level == 0 {
        var i :| 0 <= i < |in0| && in0[i] == f;
        assert e in runs[i];
      } else {
        assert e in runs[0];
      }
    }
  }

  /** `MakeInputIterator`. */
  method MakeInputIterator(ghost v: Version, level: nat, in0: seq<FileMeta>, in1: seq<FileMeta>)
      returns (input: MergingIterator)
    requires ValidVersion(v) && Selected(v, level, in0, in1)
    ensures input.Inv() && fresh(input) && fresh(set c | c in input.children)
    ensures SortedEntries(input.merged)
    ensures forall e :: e in input.merged <==> FromInput(in0, in1, e)
  {
    hide WellFormed, DistinctNumbers, Layered, Selected, IsUnion, DistinctKeys, SortedEntries, SortedKeys;
    var runs := InputRuns(level, in0, in1);
    RunsAreSorted(v, level, in0, in1);
    forall i | 0 <= i < |runs| ensures SortedKeys(runs[i]) {
      SortedByBoth(runs[i]);
    }
    RunsAreDistinct(v, level, in0, in1);
    ghost var merged := MergeExists(runs);
    MergedInputs(v, level, in0, in1, merged);
    input := MergeRuns(runs, merged);
  }

  // ----- output files -----

  lemma {:induction false} KeptEntries(v: Version, level: nat, input: seq<Entry>, snap: nat, n: nat)
    requires SortedEntries(input) && n <= |input|
    ensures SortedEntries(Kept(v, level, input, snap, n))
    ensures forall e :: e in Kept(v, level, input, snap, n) <==> e in input[..n] && !Dropped(v, level, input, snap, e)
  {
    if n > 0 {
      var rest, last := Kept(v, level, input, snap, n - 1), input[n - 1];
      KeptEntries(v, level, input, snap, n - 1);
      assert input[..n] == input[..n - 1] + [last];
      hide Dropped;
      forall x | x in rest ensures Ahead(x.key, last.key) {
        var i :| 0 <= i < n - 1 && input[i] == x;
      }
      AppendIsSorted(rest, [last]);
    }
  }

  ghost predicate CoversAll(parts: seq<seq<Entry>>) {
    && (forall i, e :: 0 <= i < |parts| && e in parts[i] ==> e in Flatten(parts))
    && (forall e :: e in Flatten(parts) ==> exists i :: 0 <= i < |parts| && e in parts[i])
  }

  ghost predicate Ascending(parts: seq<seq<Entry>>) {
    forall i, j, a, b :: 0 <= i < j < |parts| && a in parts[i] && b in parts[j] ==> Ahead(a.key, b.key)
  }

  lemma {:induction false} PartsAreOrdered(parts: seq<seq<Entry>>)
    requires SortedEntries(Flatten(parts))
    ensures forall i :: 0 <= i < |parts| ==> SortedEntries(parts[i])
    ensures CoversAll(parts) && Ascending(parts)
  {
    if parts != [] {
      var rest, last := parts[..|parts| - 1], parts[|parts| - 1];
      var all := Flatten(parts);
      assert all == Flatten(rest) + last;
      assert Flatten(rest) == all[..|Flatten(rest)|] && last == all[|Flatten(rest)|..];
      SortedPieces(all, |Flatten(rest)|);
      hide SortedEntries, Ahead, Flatten;
      PartsAreOrdered(rest);
      assert parts == rest + [last];
      AscendingStep(rest, last);
      CoversStep(rest, last);
    }
  }

  lemma AscendingStep(rest: seq<seq<Entry>>, last: seq<Entry>)
    requires CoversAll(rest) && Ascending(rest)
    requires forall a, b :: a in Flatten(rest) && b in last ==> Ahead(a.key, b.key)
    ensures Ascending(rest + [last])
  {
    hide Ahead, Flatten;
  }

  lemma CoversStep(rest: seq<seq<Entry>>, last: seq<Entry>)
    requires CoversAll(rest)
    ensures CoversAll(rest + [last])
  {
    var parts := rest + [last];
    FlattenAppend(rest, last);
    hide Flatten;
    forall e | e in Flatten(parts) ensures exists i :: 0 <= i < |parts| && e in parts[i] {
      if e in Flatten(rest) {
        var i :| 0 <= i < |rest| && e in rest[i];
        assert e in parts[i];
      } else {
        assert e in parts[|rest|];
      }
    }
  }

  lemma SortedPieces(es: seq<Entry>, n: nat)
    requires SortedEntries(es) && n <= |es|
    ensures SortedEntries(es[..n]) && SortedEntries(es[n..])
    ensures forall a, b :: a in es[..n] && b in es[n..] ==> Ahead(a.key, b.key)
  {
  }

  /** The output file that holds part `i` of the kept entries, under the next file number. */
  method BuildOutputs(parts: seq<seq<Entry>>, next: nat) returns (out: seq<FileMeta>)
    requires SortedEntries(Flatten(parts)) && forall p :: p in parts ==> p != []
    requires forall e :: e in Flatten(parts) ==> e.key.sequence <= MAX_SEQUENCE
    ensures |out| == |parts|
    ensures forall i :: 0 <= i < |out| ==> out[i].number == next + i && out[i].entries == parts[i]
    ensures ValidFiles(out) && Disjoint(out)
    ensures forall e :: (exists f :: f in out && e in f.entries) <==> e in Flatten(parts)
  {
    hide SortedEntries, Flatten, ValidFile, Ahead;
    out := [];
    for i := 0 to |parts|
      invariant |out| == i
      invariant forall j :: 0 <= j < i ==> out[j].number == next + j && out[j].entries == parts[j] && ValidFile(out[j])
    {
      var size: nat := *;
      var part := parts[i];
      assert part in parts;
      var f := FileMeta(next + i, size, part[0].key, part[|part| - 1].key, part);
      PartIsFile(parts, i, f);
      out := out + [f];
    }
    OutputsAreOrdered(parts, out);
  }

  lemma PartIsFile(parts: seq<seq<Entry>>, i: nat, f: FileMeta)
    requires SortedEntries(Flatten(parts)) && i < |parts| && parts[i] != [] && f.entries == parts[i]
    requires forall e :: e in Flatten(parts) ==> e.key.sequence <= MAX_SEQUENCE
    requires f.smallest == parts[i][0].key && f.largest == parts[i][|parts[i]| - 1].key
    ensures ValidFile(f)
  {
    hide Flatten, SortedEntries;
    PartsAreOrdered(parts);
  }

  lemma OutputsAreOrdered(parts: seq<seq<Entry>>, out: seq<FileMeta>)
    requires SortedEntries(Flatten(parts)) && |out| == |parts|
    requires forall i :: 0 <= i < |out| ==> out[i].entries == parts[i] && ValidFile(out[i])
    ensures Disjoint(out)
    ensures forall e :: (exists f :: f in out && e in f.entries) <==> e in Flatten(parts)
  {
    hide Flatten, SortedEntries, Ascending, CoversAll;
    PartsAreOrdered(parts);
    OutputsAscend(parts, out);
    OutputsCover(parts, out);
  }

  lemma OutputsAscend(parts: seq<seq<Entry>>, out: seq<FileMeta>)
    requires Ascending(parts) && |out| == |parts|
    requires forall i :: 0 <= i < |out| ==> out[i].entries == parts[i] && ValidFile(out[i])
    ensures Disjoint(out)
  {
    hide SortedEntries, Ahead;
    forall i, j | 0 <= i < j < |out| ensures Ahead(out[i].largest, out[j].smallest) {
      assert ValidFile(out[i]) && ValidFile(out[j]);
      assert parts[i][|parts[i]| - 1] in parts[i] && parts[j][0] in parts[j];
    }
  }

  lemma OutputsCover(parts: seq<seq<Entry>>, out: seq<FileMeta>)
    requires CoversAll(parts) && |out| == |parts|
    requires forall i :: 0 <= i < |out| ==> out[i].entries == parts[i]
    ensures forall e :: (exists f :: f in out && e in f.entries) <==> e in Flatten(parts)
  {
    forall e ensures (exists f :: f in out && e in f.entries) <==> e in Flatten(parts) {
      if e in Flatten(parts) {
        var i :| 0 <= i < |parts| && e in parts[i];
        assert out[i] in out && e in out[i].entries;
      }
    }
  }

  /** The outputs of one compaction meet what the compaction theorem asks for. */
  lemma OutputsCompact(c: Job, parts: seq<seq<Entry>>, next: nat)
    requires ValidVersion(c.v) && Selected(c.v, c.level, c.in0, c.in1)
    requires SortedEntries(c.input) && forall e :: e in c.input <==> FromInput(c.in0, c.in1, e)
    requires Flatten(parts) == Kept(c.v, c.level, c.input, c.snap, |c.input|)
    requires |c.out| == |parts|
    requires forall i :: 0 <= i < |c.out| ==> c.out[i].number == next + i && c.out[i].entries == parts[i]
    requires ValidFiles(c.out) && Disjoint(c.out)
    requires forall e :: (exists f :: f in c.out && e in f.entries) <==> e in Flatten(parts)
    requires forall l, f :: 0 <= l < |c.v| && f in c.v[l] ==> f.number < next
    ensures Compacts(c) && ValidOutputs(c.v, c.in0, c.in1, c.out)
  {
    hide ValidVersion, Selected, SortedEntries, Kept, Flatten, ValidFiles, Disjoint, Dropped, FromInput;
    KeptEntries(c.v, c.level, c.input, c.snap, |c.input|);
    assert c.input[..|c.input|] == c.input;
    forall f, e | f in c.out && e in f.entries ensures FromInput(c.in0, c.in1, e) {
      assert e in Flatten(parts);
    }
    forall f, l, g | f in c.out && 0 <= l < |c.v| && g in c.v[l] ensures f.number != g.number {
      var i :| 0 <= i < |c.out| && c.out[i] == f;
    }
    forall f, g | f in c.out && g in c.out && f.number == g.number ensures f == g {
      var i :| 0 <= i < |c.out| && c.out[i] == f;
      var j :| 0 <= j < |c.out| && c.out[j] == g;
    }
  }
}
