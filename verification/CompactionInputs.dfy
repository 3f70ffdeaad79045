/** The inputs of a compaction (`PickLevelForMemTableOutput`, `AddBoundaryInputs`, `SetupOtherInputs`,
    `PickCompaction`, `CompactRange` in db/version_set.cc). */
module CompactionInputs {
  import opened InternalKeys
  import opened Levels
  import opened InputSelection

  function TotalSize(fs: seq<FileMeta>): nat {
    if fs == [] then 0 else TotalSize(fs[..|fs| - 1]) + fs[|fs| - 1].size
  }

  method TotalFileSize(files: seq<FileMeta>) returns (sum: nat)
    ensures sum == TotalSize(files)
  {
    sum := 0;
    for i := 0 to |files|
      invariant sum == TotalSize(files[..i])
    {
      assert files[..i + 1][..i] == files[..i];
      sum := sum + files[i].size;
    }
    assert files[..|files|] == files;
  }

  ghost predicate SomeOverlap(v: Version, l: nat, lo: UserKey, hi: UserKey)
    requires l < |v|
  {
    exists f :: f in v[l] && Overlaps(f, At(lo), At(hi))
  }

  /** `PickLevelForMemTableOutput`: a deeper level is used only when the file overlaps nothing on it or above. */
  method PickLevelForMemTableOutput(v: Version, smallest: UserKey, largest: UserKey, maxOverlapBytes: nat)
      returns (level: nat)
    requires WellFormed(v)
    ensures level <= 2
    ensures level > 0 ==> forall l :: 0 <= l <= level ==> !SomeOverlap(v, l, smallest, largest)
    ensures level < 2 ==>
              || (level == 0 && SomeOverlap(v, 0, smallest, largest))
              || SomeOverlap(v, level + 1, smallest, largest)
              || TotalSize(Overlapping(v[level + 2], At(smallest), At(largest))) > maxOverlapBytes
  {
    level := 0;
    var overlap := SomeFileOverlapsRange(false, v[0], At(smallest), At(largest));
    if !overlap {
      while level < MAX_MEM_COMPACT_LEVEL
        invariant level <= MAX_MEM_COMPACT_LEVEL
        invariant forall l :: 0 <= l <= level ==> !SomeOverlap(v, l, smallest, largest)
      {
        overlap := SomeFileOverlapsRange(true, v[level + 1], At(smallest), At(largest));
        if overlap {
          break;
        }
        if level + 2 < NUM_LEVELS {
          var overlaps := GetOverlappingInputs(v[level + 2], level + 2, At(smallest), At(largest));
          var sum := TotalFileSize(overlaps);
          if sum > maxOverlapBytes {
            break;
          }
        }
        level := level + 1;
      }
    }
  }

  /** No gaps: a file between two members is a member. */
  ghost predicate Convex(fs: seq<FileMeta>, C: set<FileMeta>) {
    forall i, j, k :: 0 <= i < j < k < |fs| && fs[i] in C && fs[k] in C ==> fs[j] in C
  }

  ghost predicate IsLargestKey(files: seq<FileMeta>, key: InternalKey) {
    && (exists f :: f in files && f.largest == key)
    && (forall f :: f in files ==> AtOrBefore(f.largest, key))
  }

  ghost predicate IsSmallestKey(files: seq<FileMeta>, key: InternalKey) {
    && (exists f :: f in files && f.smallest == key)
    && (forall f :: f in files ==> AtOrBefore(key, f.smallest))
  }

  /** A file that continues the user key on which the chosen files end. */
  predicate ContinuesAfter(f: FileMeta, key: InternalKey) {
    Before(key, f.smallest) && f.smallest.user == key.user
  }

  ghost predicate BoundaryClosed(fs: seq<FileMeta>, chosen: seq<FileMeta>) {
    forall f, key :: f in fs && IsLargestKey(chosen, key) ==> !ContinuesAfter(f, key)
  }

  /** Every file beyond the chosen ones continues the user key on which those before it end. */
  ghost predicate BoundaryFilesOnly(chosen: seq<FileMeta>, r: seq<FileMeta>) {
    forall i :: |chosen| <= i < |r| ==> ContinuesAll(r, i)
  }

  ghost predicate ContinuesAll(r: seq<FileMeta>, i: nat)
    requires i < |r|
  {
    exists key :: IsLargestKey(r[..i], key) && ContinuesAfter(r[i], key)
  }

  /** What `AddBoundaryInputs` makes of a list of chosen files. */
  ghost predicate Extends(levelFiles: seq<FileMeta>, chosen: seq<FileMeta>, r: seq<FileMeta>) {
    && BoundaryFilesOnly(chosen, r)
    && chosen <= r && Members(r) <= Members(levelFiles) && BoundaryClosed(levelFiles, r)
    && (Disjoint(levelFiles) && Convex(levelFiles, Members(chosen)) ==> Convex(levelFiles, Members(r)))
    && (Disjoint(levelFiles) && Disjoint(chosen) ==> Disjoint(r))
    && (Closed(levelFiles, Members(chosen)) ==> r == chosen)
  }

  lemma AtOrBeforeTransitive(a: InternalKey, b: InternalKey, c: InternalKey)
    requires AtOrBefore(a, b) && AtOrBefore(b, c)
    ensures AtOrBefore(a, c)
  {
  }

  lemma LargestKeyIsUnique(files: seq<FileMeta>, a: InternalKey, b: InternalKey)
    requires IsLargestKey(files, a) && IsLargestKey(files, b)
    ensures a == b
  {
    var f :| f in files && f.largest == a;
    var g :| g in files && g.largest == b;
    BeforeIsStrictTotalOrder(a, b, a);
  }

  /** `GetRange`: the least and greatest keys of a nonempty file list (`FindLargestKey` is its second half). */
  method GetRange(inputs: seq<FileMeta>) returns (smallest: InternalKey, largest: InternalKey)
    requires inputs != []
    ensures IsSmallestKey(inputs, smallest)
    ensures IsLargestKey(inputs, largest)
  {
    smallest, largest := inputs[0].smallest, inputs[0].largest;
    for i := 1 to |inputs|
      invariant exists f :: f in inputs && f.smallest == smallest
      invariant exists f :: f in inputs && f.largest == largest
      invariant forall j :: 0 <= j < i ==>
                AtOrBefore(smallest, inputs[j].smallest) && AtOrBefore(inputs[j].largest, largest)
    {
      var f := inputs[i];
      BeforeIsStrictTotalOrder(f.smallest, smallest, smallest);
      BeforeIsStrictTotalOrder(largest, f.largest, largest);
      forall j | 0 <= j < i
        ensures Before(f.smallest, smallest) ==> AtOrBefore(f.smallest, inputs[j].smallest)
        ensures Before(largest, f.largest) ==> AtOrBefore(inputs[j].largest, f.largest)
      {
        BeforeIsStrictTotalOrder(f.smallest, smallest, inputs[j].smallest);
        BeforeIsStrictTotalOrder(inputs[j].largest, largest, f.largest);
      }
      if Before(f.smallest, smallest) {
        smallest := f.smallest;
      }
      if Before(largest, f.largest) {
        largest := f.largest;
      }
    }
  }

  /** `FindSmallestBoundaryFile`. */
  method FindSmallestBoundaryFile(levelFiles: seq<FileMeta>, largestKey: InternalKey) returns (found: bool, index: nat)
    ensures !found ==> forall f :: f in levelFiles ==> !ContinuesAfter(f, largestKey)
    ensures found ==> index < |levelFiles| && ContinuesAfter(levelFiles[index], largestKey)
    ensures found ==> forall f :: f in levelFiles && ContinuesAfter(f, largestKey) ==>
              AtOrBefore(levelFiles[index].smallest, f.smallest)
  {
    found, index := false, 0;
    for i := 0 to |levelFiles|
      invariant !found ==> forall j :: 0 <= j < i ==> !ContinuesAfter(levelFiles[j], largestKey)
      invariant found ==> index < i && ContinuesAfter(levelFiles[index], largestKey)
      invariant found ==> forall j :: 0 <= j < i && ContinuesAfter(levelFiles[j], largestKey) ==>
                AtOrBefore(levelFiles[index].smallest, levelFiles[j].smallest)
    {
      var f := levelFiles[i];
      if ContinuesAfter(f, largestKey) {
        if found {
          BeforeIsStrictTotalOrder(f.smallest, levelFiles[index].smallest, f.smallest);
          forall j | 0 <= j < i && Before(f.smallest, levelFiles[index].smallest)
            && AtOrBefore(levelFiles[index].smallest, levelFiles[j].smallest)
            ensures AtOrBefore(f.smallest, levelFiles[j].smallest)
          {
            AtOrBeforeTransitive(f.smallest, levelFiles[index].smallest, levelFiles[j].smallest);
          }
        }
        if !found || Before(f.smallest, levelFiles[index].smallest) {
          found, index := true, i;
        }
      }
    }
  }

  ghost function StartingAfter(fs: seq<FileMeta>, key: InternalKey): set<FileMeta> {
    set f | f in fs && Before(key, f.smallest)
  }

  /** `AddBoundaryInputs`: follow the last user key to the right until no file continues it. */
  method AddBoundaryInputs(levelFiles: seq<FileMeta>, chosen: seq<FileMeta>) returns (r: seq<FileMeta>)
    requires ValidFiles(levelFiles)
    requires Members(chosen) <= Members(levelFiles)
    ensures Extends(levelFiles, chosen, r)
  {
    r := chosen;
    if chosen == [] {
      return;
    }
    var _, largestKey := GetRange(chosen);
    var searching := true;
    while searching
      invariant chosen <= r && Members(r) <= Members(levelFiles)
      invariant IsLargestKey(r, largestKey)
      invariant Disjoint(levelFiles) && Convex(levelFiles, Members(chosen)) ==> Convex(levelFiles, Members(r))
      invariant Disjoint(levelFiles) && Disjoint(chosen) ==> Disjoint(r)
      invariant Closed(levelFiles, Members(chosen)) ==> r == chosen
      invariant BoundaryFilesOnly(chosen, r)
      invariant !searching ==> forall f :: f in levelFiles ==> !ContinuesAfter(f, largestKey)
      decreases searching, StartingAfter(levelFiles, largestKey)
    {
      var found, index := FindSmallestBoundaryFile(levelFiles, largestKey);
      if found {
        var b := levelFiles[index];
        if Closed(levelFiles, Members(chosen)) {
          ClosedHasNoBoundaryFile(levelFiles, chosen, largestKey, b);
        }
        BoundaryFileExtends(levelFiles, r, largestKey, index);
        BoundaryFileFollows(levelFiles, r, largestKey, index);
        OneMoreBoundaryFile(chosen, r, largestKey, b);
        r := r + [b];
        largestKey := b.largest;
      } else {
        searching := false;
      }
    }
    forall key | IsLargestKey(r, key) ensures key == largestKey {
      LargestKeyIsUnique(r, key, largestKey);
    }
  }

  lemma OneMoreBoundaryFile(chosen: seq<FileMeta>, r: seq<FileMeta>, key: InternalKey, b: FileMeta)
    requires BoundaryFilesOnly(chosen, r) && IsLargestKey(r, key) && ContinuesAfter(b, key)
    ensures BoundaryFilesOnly(chosen, r + [b])
  {
    hide IsLargestKey, ContinuesAfter;
    forall i | |chosen| <= i < |r + [b]| ensures ContinuesAll(r + [b], i) {
      if i < |r| {
        assert ContinuesAll(r, i);
        assert (r + [b])[..i] == r[..i];
      } else {
        assert (r + [b])[..i] == r;
      }
    }
  }

  lemma ClosedHasNoBoundaryFile(fs: seq<FileMeta>, chosen: seq<FileMeta>, key: InternalKey, b: FileMeta)
    requires ValidFiles(fs) && Members(chosen) <= Members(fs)
    requires Closed(fs, Members(chosen)) && IsLargestKey(chosen, key)
    requires b in fs
    ensures !ContinuesAfter(b, key)
  {
    if ContinuesAfter(b, key) {
      var g :| g in chosen && g.largest == key;
      assert g in Members(chosen);
      assert g in fs;
      FileBounds(g, g.entries[0]);
      FileBounds(b, b.entries[0]);
      assert Touches(b, g);
      assert b in Members(chosen);
      FileBounds(b, b.entries[|b.entries| - 1]);
      BeforeIsStrictTotalOrder(b.largest, key, b.smallest);
      BeforeIsStrictTotalOrder(b.smallest, b.largest, key);
      assert false;
    }
  }

  lemma BoundaryFileExtends(fs: seq<FileMeta>, r: seq<FileMeta>, key: InternalKey, index: nat)
    requires ValidFiles(fs) && Members(r) <= Members(fs) && IsLargestKey(r, key)
    requires index < |fs| && ContinuesAfter(fs[index], key)
    requires forall f :: f in fs && ContinuesAfter(f, key) ==> AtOrBefore(fs[index].smallest, f.smallest)
    ensures IsLargestKey(r + [fs[index]], fs[index].largest)
    ensures StartingAfter(fs, fs[index].largest) < StartingAfter(fs, key)
    ensures Disjoint(fs) && Convex(fs, Members(r)) ==> Convex(fs, Members(r + [fs[index]]))
  {
    var b := fs[index];
    assert ValidFile(b);
    FileBounds(b, b.entries[|b.entries| - 1]);
    BeforeIsStrictTotalOrder(key, b.smallest, b.largest);
    assert Before(key, b.largest);
    forall f | f in r + [b] ensures AtOrBefore(f.largest, b.largest) {
      BeforeIsStrictTotalOrder(f.largest, key, b.largest);
    }
    assert b in r + [b];
    forall f | f in StartingAfter(fs, b.largest) ensures f in StartingAfter(fs, key) {
      BeforeIsStrictTotalOrder(key, b.largest, f.smallest);
    }
    assert b in StartingAfter(fs, key);
    assert b !in StartingAfter(fs, b.largest) by {
      BeforeIsStrictTotalOrder(b.smallest, b.largest, b.smallest);
    }
    if Disjoint(fs) && Convex(fs, Members(r)) {
      var C := Members(r + [b]);
      assert C == Members(r) + {b};
      forall i, j, k | 0 <= i < j < k < |fs| && fs[i] in C && fs[k] in C ensures fs[j] in C {
        BoundaryFileIsNext(fs, r, key, index, i, j, k);
      }
    }
  }

  lemma BoundaryFileFollows(fs: seq<FileMeta>, r: seq<FileMeta>, key: InternalKey, index: nat)
    requires ValidFiles(fs) && Members(r) <= Members(fs) && IsLargestKey(r, key)
    requires index < |fs| && ContinuesAfter(fs[index], key)
    ensures Disjoint(fs) && Disjoint(r) ==> Disjoint(r + [fs[index]])
  {
    if Disjoint(fs) && Disjoint(r) {
      forall i | 0 <= i < |r| ensures Ahead(r[i].largest, fs[index].smallest) {
        assert r[i] in Members(r) && r[i] in fs;
        var j :| 0 <= j < |fs| && fs[j] == r[i];
        InOrder(fs, index, j);
        BeforeIsStrictTotalOrder(r[i].largest, key, fs[index].smallest);
        BeforeIsStrictTotalOrder(fs[index].smallest, fs[j].largest, fs[index].smallest);
      }
    }
  }

  lemma BoundaryFileIsNext(fs: seq<FileMeta>, r: seq<FileMeta>, key: InternalKey, index: nat, i: int, j: int, k: int)
    requires ValidFiles(fs) && Members(r) <= Members(fs) && IsLargestKey(r, key)
    requires Disjoint(fs) && Convex(fs, Members(r))
    requires index < |fs| && ContinuesAfter(fs[index], key)
    requires forall f :: f in fs && ContinuesAfter(f, key) ==> AtOrBefore(fs[index].smallest, f.smallest)
    requires 0 <= i < j < k < |fs|
    requires fs[i] in r || i == index
    requires fs[k] in r || k == index
    ensures fs[j] in r || j == index
  {
    hide ValidFiles, Disjoint;
    var last := LastMember(fs, r, key, index);
    if k != index {
      MemberBefore(fs, r, key, index, k);
      assert fs[i] in Members(r) && fs[k] in Members(r);
    } else {
      // a file between the last member and the boundary file would have been found first
      if last < j {
        BetweenContinues(fs, key, last, j, index);
      }
      assert fs[i] in Members(r) && fs[last] in Members(r);
    }
  }

  lemma BetweenContinues(fs: seq<FileMeta>, key: InternalKey, last: nat, j: nat, index: nat)
    requires ValidFiles(fs) && Disjoint(fs) && last < j < index < |fs|
    requires fs[last].largest == key && ContinuesAfter(fs[index], key)
    ensures ContinuesAfter(fs[j], key) && Before(fs[j].smallest, fs[index].smallest)
  {
    hide ValidFiles, Disjoint;
    InOrder(fs, last, j);
    InOrder(fs, j, index);
  }

  /** The last member ends with the largest key, left of the boundary file. */
  lemma LastMember(fs: seq<FileMeta>, r: seq<FileMeta>, key: InternalKey, index: nat) returns (last: nat)
    requires ValidFiles(fs) && Disjoint(fs) && Members(r) <= Members(fs) && IsLargestKey(r, key)
    requires index < |fs| && ContinuesAfter(fs[index], key)
    ensures last < index && fs[last] in r && fs[last].largest == key
  {
    hide ValidFiles, Disjoint;
    var g :| g in r && g.largest == key;
    assert g in Members(r);
    last :| 0 <= last < |fs| && fs[last] == g;
    InOrder(fs, index, last);
    BeforeIsStrictTotalOrder(key, fs[index].smallest, key);
  }

  lemma MemberBefore(fs: seq<FileMeta>, r: seq<FileMeta>, key: InternalKey, index: nat, k: nat)
    requires ValidFiles(fs) && Disjoint(fs) && IsLargestKey(r, key)
    requires index < |fs| && ContinuesAfter(fs[index], key) && k < |fs| && fs[k] in r
    ensures k < index
  {
    hide ValidFiles, Disjoint;
    InOrder(fs, index, k);
    BeforeIsStrictTotalOrder(key, fs[index].smallest, fs[k].largest);
    BeforeIsStrictTotalOrder(key, fs[k].largest, key);
  }

  lemma InOrder(fs: seq<FileMeta>, i: int, j: int)
    requires ValidFiles(fs) && Disjoint(fs)
    requires 0 <= i < |fs| && 0 <= j < |fs|
    ensures fs[i].smallest.user <= fs[i].largest.user
    ensures AtOrBefore(fs[i].smallest, fs[i].largest)
    ensures i < j ==>
              && Before(fs[i].largest, fs[j].smallest) && Before(fs[i].smallest, fs[j].smallest)
              && Before(fs[i].largest, fs[j].largest)
  {
    assert ValidFile(fs[i]) && ValidFile(fs[j]);
    FileBounds(fs[i], fs[i].entries[0]);
    FileBounds(fs[j], fs[j].entries[0]);
  }

  ghost predicate Between(fs: seq<FileMeta>, in0: seq<FileMeta>, in1: seq<FileMeta>) {
    exists lo, hi :: IsSmallestKey(in0, lo) && IsLargestKey(in0, hi) && in1 == Overlapping(fs, At(lo.user), At(hi.user))
  }

  lemma BetweenIs(fs: seq<FileMeta>, in0: seq<FileMeta>, in1: seq<FileMeta>, lo: InternalKey, hi: InternalKey)
    requires IsSmallestKey(in0, lo) && IsLargestKey(in0, hi) && in1 == Overlapping(fs, At(lo.user), At(hi.user))
    ensures Between(fs, in0, in1)
  {
  }

  /** What `SetupOtherInputs` guarantees about the two input lists. */
  ghost predicate Selected(v: Version, level: int, in0: seq<FileMeta>, in1: seq<FileMeta>) {
    && |v| == NUM_LEVELS && 0 <= level < NUM_LEVELS - 1
    && in0 != [] && Members(in0) <= Members(v[level])
    && (level == 0 ==> NoDuplicates(in0) && Closed(v[0], Members(in0)))
    && (level > 0 ==> Disjoint(in0) && Convex(v[level], Members(in0)) && BoundaryClosed(v[level], in0))
    && Between(v[level + 1], in0, in1)
  }

  /** The starting set of a compaction: one file or a run of files, closed under overlap on level 0. */
  ghost predicate Startable(v: Version, level: int, in0: seq<FileMeta>) {
    && |v| == NUM_LEVELS && 0 <= level < NUM_LEVELS - 1
    && in0 != [] && Members(in0) <= Members(v[level])
    && (level == 0 ==> NoDuplicates(in0) && Closed(v[0], Members(in0)))
    && (level > 0 ==> Disjoint(in0) && Convex(v[level], Members(in0)))
  }

  lemma SortedHasNoDuplicates(fs: seq<FileMeta>)
    requires SortedBySmallest(fs)
    ensures NoDuplicates(fs)
  {
    forall i, j | 0 <= i < j < |fs| ensures fs[i] != fs[j] {
      assert BySmallest(fs[i], fs[j]);
    }
  }

  /** A starting set closed at its right edge, and the next-level files that overlap it. */
  lemma ClosedSelects(v: Version, level: nat, chosen: seq<FileMeta>, in0: seq<FileMeta>, in1: seq<FileMeta>,
                      lo: InternalKey, hi: InternalKey)
    requires WellFormed(v) && Startable(v, level, chosen) && Extends(v[level], chosen, in0)
    requires IsSmallestKey(in0, lo) && IsLargestKey(in0, hi)
    requires in1 == Overlapping(v[level + 1], At(lo.user), At(hi.user))
    ensures Selected(v, level, in0, in1)
  {
    hide ValidFiles, SortedBySmallest, Convex, Closed, BoundaryClosed, Overlapping, IsSmallestKey, IsLargestKey;
    assert Between(v[level + 1], in0, in1);
  }

  /** A wider range overlaps the same files and more. */
  lemma {:induction false} WiderOverlaps(fs: seq<FileMeta>, lo: UserKey, hi: UserKey, lo': UserKey, hi': UserKey)
    requires lo' <= lo && hi <= hi'
    ensures var some, all := Overlapping(fs, At(lo), At(hi)), Overlapping(fs, At(lo'), At(hi'));
            |some| <= |all| && (|some| == |all| ==> some == all)
  {
    if fs != [] {
      WiderOverlaps(fs[..|fs| - 1], lo, hi, lo', hi');
    }
  }

  /** More files have a wider range. */
  lemma WiderKeys(in0: seq<FileMeta>, expanded: seq<FileMeta>, lo: InternalKey, hi: InternalKey, lo': InternalKey,
                  hi': InternalKey)
    requires Members(in0) <= Members(expanded)
    requires IsSmallestKey(in0, lo) && IsLargestKey(in0, hi) && IsSmallestKey(expanded, lo')
    requires IsLargestKey(expanded, hi')
    ensures lo'.user <= lo.user && hi.user <= hi'.user
  {
    var f :| f in in0 && f.smallest == lo;
    var g :| g in in0 && g.largest == hi;
    assert f in Members(expanded) && g in Members(expanded);
  }

  /** As many next-level files are the same ones. */
  lemma SameCountSameFiles(fs: seq<FileMeta>, in0: seq<FileMeta>, in1: seq<FileMeta>, expanded0: seq<FileMeta>,
                           expanded1: seq<FileMeta>, lo: InternalKey, hi: InternalKey)
    requires Between(fs, in0, in1) && Members(in0) <= Members(expanded0)
    requires IsSmallestKey(expanded0, lo) && IsLargestKey(expanded0, hi)
    requires expanded1 == Overlapping(fs, At(lo.user), At(hi.user)) && |expanded1| == |in1|
    ensures expanded1 == in1
  {
    hide IsSmallestKey, IsLargestKey, Overlapping;
    var l, h :| IsSmallestKey(in0, l) && IsLargestKey(in0, h) && in1 == Overlapping(fs, At(l.user), At(h.user));
    WiderKeys(in0, expanded0, l, h, lo, hi);
    WiderOverlaps(fs, l.user, h.user, lo.user, hi.user);
  }

  /** The files in the range of a selection are a starting set that contains it. */
  lemma RangeIsStartable(v: Version, level: nat, in0: seq<FileMeta>, in1: seq<FileMeta>, lo: InternalKey,
                         hi: InternalKey, plain: seq<FileMeta>)
    requires WellFormed(v) && Selected(v, level, in0, in1)
    requires IsSmallestKey(in0 + in1, lo) && IsLargestKey(in0 + in1, hi)
    requires forall f :: f in plain ==> f in v[level]
    requires ContainsOverlapping(v[level], At(lo.user), At(hi.user), Members(plain))
    requires level == 0 ==> Closed(v[level], Members(plain)) && (NoDuplicates(v[level]) ==> NoDuplicates(plain))
    requires level > 0 ==> plain == Overlapping(v[level], At(lo.user), At(hi.user))
    ensures Startable(v, level, plain) && Members(in0) <= Members(plain)
  {
    hide SortedEntries, Closed, Convex, BoundaryClosed, IsSmallestKey, IsLargestKey, Between, ValidFile, NoDuplicates;
    RangeCoversMembers(v[level], in0 + in1, in0, lo, hi);
    if level > 0 {
      OverlappingIsConvex(v[level], At(lo.user), At(hi.user));
    } else {
      SortedHasNoDuplicates(v[0]);
    }
    assert in0[0] in Members(in0);
    assert in0[0] in plain;
  }

  lemma LevelsAreValid(v: Version, level: nat)
    requires WellFormed(v) && level < NUM_LEVELS
    ensures |v| == NUM_LEVELS && ValidFiles(v[level])
  {
  }

  lemma SelectedIs(v: Version, level: nat, in0: seq<FileMeta>, in1: seq<FileMeta>)
    requires Selected(v, level, in0, in1)
    ensures level + 1 < |v| == NUM_LEVELS && in0 != [] && Members(in0) <= Members(v[level])
    ensures Between(v[level + 1], in0, in1)
  {
  }

  lemma StartableIs(v: Version, level: nat, in0: seq<FileMeta>)
    requires Startable(v, level, in0)
    ensures level + 1 < |v| == NUM_LEVELS && in0 != [] && Members(in0) <= Members(v[level])
  {
  }

  /** `GetOverlappingInputs` for the whole range of some files. */
  ghost predicate IsCover(files: seq<FileMeta>, level: nat, all: seq<FileMeta>, cover: seq<FileMeta>) {
    exists lo, hi :: IsSmallestKey(all, lo) && IsLargestKey(all, hi)
        && CoversRange(files, level, lo.user, hi.user, cover)
  }

  ghost predicate CoversRange(files: seq<FileMeta>, level: nat, lo: UserKey, hi: UserKey, cover: seq<FileMeta>) {
    && (level > 0 ==> cover == Overlapping(files, At(lo), At(hi)))
    && ContainsOverlapping(files, At(lo), At(hi), Members(cover))
    && (level == 0 ==> Closed(files, Members(cover)))
    && (level == 0 && lo <= hi ==>
          forall C :: Closed(files, C) && ContainsOverlapping(files, At(lo), At(hi), C) ==> Members(cover) <= C)
  }

  lemma IsCoverOf(files: seq<FileMeta>, level: nat, all: seq<FileMeta>, cover: seq<FileMeta>, lo: InternalKey,
                  hi: InternalKey)
    requires IsSmallestKey(all, lo) && IsLargestKey(all, hi) && CoversRange(files, level, lo.user, hi.user, cover)
    ensures IsCover(files, level, all, cover)
  {
    hide CoversRange, IsSmallestKey, IsLargestKey;
  }

  ghost predicate SameCount(fs: seq<FileMeta>, in0: seq<FileMeta>, in1: seq<FileMeta>) {
    exists others :: Between(fs, in0, others) && |others| == |in1|
  }

  /** The attempt to grow: `plain` are the files in the range of all inputs, `expanded` these and the boundary files.
      They are taken exactly when they are more, within the size limit, and overlap as many next-level files. */
  ghost predicate Expansion(v: Version, level: nat, in0: seq<FileMeta>, in1: seq<FileMeta>, plain: seq<FileMeta>,
                            expanded: seq<FileMeta>, grown: bool, limit: nat)
  {
    && level + 1 < |v|
    && IsCover(v[level], level, in0 + in1, plain) && Extends(v[level], plain, expanded)
    && (grown <==>
          && |expanded| > |in0| && TotalSize(in1) + TotalSize(expanded) < limit
          && SameCount(v[level + 1], expanded, in1))
  }

  /** The inputs of `SetupOtherInputs`: closed at the right edge, with what overlaps them, and grown if possible. */
  ghost predicate IsSetUp(v: Version, level: nat, chosen: seq<FileMeta>, in0: seq<FileMeta>, in1: seq<FileMeta>,
                          limit: nat)
  {
    exists start, plain, expanded, grown: bool ::
      SetUpBy(v, level, chosen, in1, limit, start, plain, expanded, grown) && in0 == if grown then expanded else start
  }

  ghost predicate SetUpBy(v: Version, level: nat, chosen: seq<FileMeta>, in1: seq<FileMeta>, limit: nat,
                          start: seq<FileMeta>, plain: seq<FileMeta>, expanded: seq<FileMeta>, grown: bool)
  {
    && level + 1 < |v| && Extends(v[level], chosen, start) && Between(v[level + 1], start, in1)
    && if in1 == [] then !grown else Expansion(v, level, start, in1, plain, expanded, grown, limit)
  }

  lemma BetweenIsUnique(fs: seq<FileMeta>, in0: seq<FileMeta>, in1: seq<FileMeta>, others: seq<FileMeta>)
    requires Between(fs, in0, in1) && Between(fs, in0, others)
    ensures others == in1
  {
    hide Overlapping, IsSmallestKey, IsLargestKey;
    var lo, hi :| IsSmallestKey(in0, lo) && IsLargestKey(in0, hi) && in1 == Overlapping(fs, At(lo.user), At(hi.user));
    var lo', hi' :| IsSmallestKey(in0, lo') && IsLargestKey(in0, hi')
        && others == Overlapping(fs, At(lo'.user), At(hi'.user));
    LargestKeyIsUnique(in0, hi, hi');
    SmallestKeyIsUnique(in0, lo, lo');
  }

  lemma SmallestKeyIsUnique(files: seq<FileMeta>, a: InternalKey, b: InternalKey)
    requires IsSmallestKey(files, a) && IsSmallestKey(files, b)
    ensures a == b
  {
    var f :| f in files && f.smallest == a;
    var g :| g in files && g.smallest == b;
    BeforeIsStrictTotalOrder(a, b, a);
  }

  lemma SameCountIs(fs: seq<FileMeta>, in0: seq<FileMeta>, in1: seq<FileMeta>, others: seq<FileMeta>)
    requires Between(fs, in0, others)
    ensures SameCount(fs, in0, in1) <==> |others| == |in1|
  {
    hide Between;
    if x :| Between(fs, in0, x) && |x| == |in1| {
      BetweenIsUnique(fs, in0, x, others);
    }
  }

  /** The part of `SetupOtherInputs` that tries to take more files of `level` without taking more of `level+1`. */
  method ExpandInputs(version: Version, level: nat, inputs0: seq<FileMeta>, inputs1: seq<FileMeta>,
                      allStart: InternalKey, allLimit: InternalKey, expandedLimit: nat)
    returns (grown: bool, expanded0: seq<FileMeta>, expanded1: seq<FileMeta>, ghost plain: seq<FileMeta>)
    requires WellFormed(version) && Selected(version, level, inputs0, inputs1)
    requires IsSmallestKey(inputs0 + inputs1, allStart) && IsLargestKey(inputs0 + inputs1, allLimit)
    ensures grown ==> Selected(version, level, expanded0, expanded1)
    ensures grown ==> Members(inputs0) <= Members(expanded0)
    ensures grown ==> |inputs0| < |expanded0| && expanded1 == inputs1
    ensures if inputs1 == [] then !grown
            else Expansion(version, level, inputs0, inputs1, plain, expanded0, grown, expandedLimit)
  {
    hide CoversRange, IsCover, SameCount, WellFormed, Selected, Startable, ValidFiles, Extends, IsSmallestKey,
         IsLargestKey, Between, Closed, NoDuplicates, ContainsOverlapping, Overlapping, TotalSize;
    grown, expanded0, expanded1, plain := false, [], [], [];
    SelectedIs(version, level, inputs0, inputs1);
    LevelsAreValid(version, level);
    LevelsAreValid(version, level + 1);
    if inputs1 == [] {
      return;
    }
    var covering := GetOverlappingInputs(version[level], level, At(allStart.user), At(allLimit.user));
    plain := covering;
    RangeIsCovered(version[level], level, allStart.user, allLimit.user, plain);
    IsCoverOf(version[level], level, inputs0 + inputs1, plain, allStart, allLimit);
    RangeIsStartable(version, level, inputs0, inputs1, allStart, allLimit, plain);
    StartableIs(version, level, plain);
    expanded0 := AddBoundaryInputs(version[level], covering);
    ExtendsIs(version[level], plain, expanded0);
    var size0 := TotalFileSize(inputs0);
    var size1 := TotalFileSize(inputs1);
    var sizeExpanded := TotalFileSize(expanded0);
    if |expanded0| > |inputs0| && size1 + sizeExpanded < expandedLimit {
      var newStart, newLimit := GetRange(expanded0);
      expanded1 := GetOverlappingInputs(version[level + 1], level + 1, At(newStart.user), At(newLimit.user));
      grown := |expanded1| == |inputs1|;
      BetweenIs(version[level + 1], expanded0, expanded1, newStart, newLimit);
      SameCountIs(version[level + 1], expanded0, inputs1, expanded1);
      if grown {
        ClosedSelects(version, level, plain, expanded0, expanded1, newStart, newLimit);
        SameCountSameFiles(version[level + 1], inputs0, inputs1, expanded0, expanded1, newStart, newLimit);
      }
    }
  }

  lemma RangeIsCovered(files: seq<FileMeta>, level: nat, lo: UserKey, hi: UserKey, cover: seq<FileMeta>)
    requires level > 0 ==> cover == Overlapping(files, At(lo), At(hi))
    requires ContainsOverlapping(files, At(lo), At(hi), Members(cover))
    requires level == 0 ==> Closed(files, Members(cover))
    requires level == 0 && lo <= hi ==>
               forall C :: Closed(files, C) && ContainsOverlapping(files, At(lo), At(hi), C) ==> Members(cover) <= C
    ensures CoversRange(files, level, lo, hi, cover)
  {
    hide Overlapping, ContainsOverlapping, Closed;
  }

  lemma ExtendsIs(levelFiles: seq<FileMeta>, chosen: seq<FileMeta>, r: seq<FileMeta>)
    requires Extends(levelFiles, chosen, r)
    ensures chosen <= r && Members(chosen) <= Members(r) <= Members(levelFiles)
  {
    PrefixMembers(chosen, r);
  }

  lemma PrefixMembers(a: seq<FileMeta>, b: seq<FileMeta>)
    requires a <= b
    ensures Members(a) <= Members(b)
  {
    forall f | f in a ensures f in b {
      var i :| 0 <= i < |a| && a[i] == f;
      assert b[i] == f;
    }
  }

  lemma RangeCoversMembers(fs: seq<FileMeta>, all: seq<FileMeta>, some: seq<FileMeta>, lo: InternalKey, hi: InternalKey)
    requires ValidFiles(fs) && Members(some) <= Members(fs) && some <= all
    requires IsSmallestKey(all, lo) && IsLargestKey(all, hi)
    ensures forall f :: f in some ==> f in fs && Overlaps(f, At(lo.user), At(hi.user))
  {
    forall f | f in some ensures f in fs && Overlaps(f, At(lo.user), At(hi.user)) {
      PrefixMembers(some, all);
      assert f in Members(some);
      assert f in Members(all);
      FileBounds(f, f.entries[0]);
    }
  }

  lemma {:induction false} OverlappingIsDisjoint(fs: seq<FileMeta>, begin: Bound, end: Bound)
    requires Disjoint(fs)
    ensures Disjoint(Overlapping(fs, begin, end))
  {
    if fs != [] {
      OverlappingIsDisjoint(fs[..|fs| - 1], begin, end);
      var rest, last := Overlapping(fs[..|fs| - 1], begin, end), fs[|fs| - 1];
      forall i | 0 <= i < |rest| ensures Ahead(rest[i].largest, last.smallest) {
        assert rest[i] in rest && rest[i] in fs[..|fs| - 1];
      }
    }
  }

  lemma OverlappingIsConvex(fs: seq<FileMeta>, begin: Bound, end: Bound)
    requires ValidFiles(fs) && Disjoint(fs)
    ensures Convex(fs, Members(Overlapping(fs, begin, end))) && Disjoint(Overlapping(fs, begin, end))
  {
    OverlappingIsDisjoint(fs, begin, end);
    forall i, j, k | 0 <= i < j < k < |fs| && Overlaps(fs[i], begin, end) && Overlaps(fs[k], begin, end)
      ensures Overlaps(fs[j], begin, end)
    {
      assert ValidFile(fs[j]);
      FileBounds(fs[j], fs[j].entries[0]);
    }
  }

  // ----- where a compaction starts -----

  predicate PassedBy(f: FileMeta, pointer: seq<InternalKey>)
    requires |pointer| <= 1
  {
    pointer != [] && AtOrBefore(f.largest, pointer[0])
  }

  /** `f` is the first file that ends after the pointer, or the first of all if none does. */
  ghost predicate NextInTurn(files: seq<FileMeta>, pointer: seq<InternalKey>, f: FileMeta)
    requires |pointer| <= 1
  {
    exists i :: 0 <= i < |files| && files[i] == f &&
      ((!PassedBy(f, pointer) && forall j :: 0 <= j < i ==> PassedBy(files[j], pointer))
       || (i == 0 && forall j :: 0 <= j < |files| ==> PassedBy(files[j], pointer)))
  }

  /** `PickCompaction` for a level that is too large: the first file after the compaction pointer, wrapping around;
      on level 0 everything that overlaps it, directly or through other files. */
  method PickCompaction(v: Version, level: nat, pointer: seq<InternalKey>) returns (inputs: seq<FileMeta>)
    requires WellFormed(v) && level + 1 < NUM_LEVELS && v[level] != [] && |pointer| <= 1
    ensures Startable(v, level, inputs)
    ensures exists f :: f in inputs && NextInTurn(v[level], pointer, f)
    ensures level > 0 ==> |inputs| == 1
  {
    hide SortedEntries, Disjoint, SortedBySmallest;
    var files := v[level];
    var i := 0;
    while i < |files| && PassedBy(files[i], pointer)
      invariant 0 <= i <= |files|
      invariant forall j :: 0 <= j < i ==> PassedBy(files[j], pointer)
    {
      i := i + 1;
    }
    if i == |files| {
      i := 0;
    }
    assert NextInTurn(files, pointer, files[i]);
    inputs := StartFrom(v, level, files[i]);
  }

  /** The shared end of `PickCompaction`: also entered with the file that too many seeks have missed in. */
  method StartFrom(v: Version, level: nat, f: FileMeta) returns (inputs: seq<FileMeta>)
    requires WellFormed(v) && level + 1 < NUM_LEVELS && f in v[level]
    ensures Startable(v, level, inputs) && f in inputs
    ensures level > 0 ==> inputs == [f]
  {
    inputs := [f];
    if level == 0 {
      var smallest, largest := GetRange(inputs);
      SortedHasNoDuplicates(v[0]);
      assert f in inputs && ValidFile(f);
      FileBounds(f, f.entries[0]);
      hide SortedEntries, SortedBySmallest, NoDuplicates, Closed;
      inputs := GetOverlappingInputs(v[0], 0, At(smallest.user), At(largest.user));
      assert Overlaps(f, At(smallest.user), At(largest.user));
      assert f in Members(inputs);
    } else {
      hide SortedEntries;
      SingleIsConvex(v[level], f);
    }
  }

  lemma SingleIsConvex(fs: seq<FileMeta>, f: FileMeta)
    requires ValidFiles(fs) && Disjoint(fs) && f in fs
    ensures Disjoint([f]) && Convex(fs, Members([f]))
  {
    forall i, k | 0 <= i < k < |fs| ensures fs[i] != fs[k] {
      NotTwice(fs, i, k);
    }
    hide ValidFiles, Disjoint;
    assert Convex(fs, Members([f]));
  }

  lemma NotTwice(fs: seq<FileMeta>, i: nat, k: nat)
    requires ValidFiles(fs) && Disjoint(fs) && i < k < |fs|
    ensures fs[i] != fs[k]
  {
    InOrder(fs, i, k);
    BeforeIsStrictTotalOrder(fs[i].smallest, fs[k].smallest, fs[i].smallest);
  }

  /** `CompactRange`: the files overlapping a requested range, above level 0 only as many as fit the size limit.
      An empty result means there is nothing to compact. */
  method CompactRange(v: Version, level: nat, begin: Bound, end: Bound, limit: nat) returns (inputs: seq<FileMeta>)
    requires WellFormed(v) && level + 1 < NUM_LEVELS
    ensures inputs != [] ==> Startable(v, level, inputs)
    ensures inputs == [] ==> forall f :: f in v[level] ==> !Overlaps(f, begin, end)
    ensures level > 0 ==>
              var all := Overlapping(v[level], begin, end);
              inputs <= all && FitsLimit(all, |inputs|, limit)
    ensures level == 0 && begin.At? && end.At? && begin.key <= end.key ==>
              forall C :: Closed(v[0], C) && ContainsOverlapping(v[0], begin, end, C) ==> Members(inputs) <= C
  {
    hide WellFormed, Startable, ContainsOverlapping, Closed, NoDuplicates, Overlapping;
    LevelsAreValid(v, level);
    inputs := GetOverlappingInputs(v[level], level, begin, end);
    RangeIsStart(v, level, begin, end, inputs);
    if level > 0 {
      var n := CutToLimit(inputs, limit);
      CutIsStartable(v, level, inputs, n);
      inputs := inputs[..n];
    }
  }

  /** As many files as fit the limit, and the one that exceeds it. */
  method CutToLimit(files: seq<FileMeta>, limit: nat) returns (n: nat)
    ensures FitsLimit(files, n, limit)
  {
    hide TotalSize;
    var total := 0;
    TotalIs(files, 0);
    for i := 0 to |files|
      invariant total == TotalSize(files[..i]) && (i > 0 ==> total < limit)
    {
      TotalIs(files, i + 1);
      total := total + files[i].size;
      if total >= limit {
        return i + 1;
      }
    }
    n := |files|;
    TotalIs(files, n);
  }

  /** All files, or the first ones up to that with which their size reaches the limit. */
  ghost predicate FitsLimit(files: seq<FileMeta>, n: nat, limit: nat) {
    && n <= |files| && (n == 0 ==> files == [])
    && (n < |files| ==> TotalSize(files[..n]) >= limit)
    && (n > 1 ==> TotalSize(files[..n - 1]) < limit)
  }

  lemma TotalIs(files: seq<FileMeta>, n: nat)
    requires n <= |files|
    ensures TotalSize(files[..n]) == if n == 0 then 0 else TotalSize(files[..n - 1]) + files[n - 1].size
  {
    assert n > 0 ==> files[..n][..n - 1] == files[..n - 1];
  }

  /** The files that overlap a range are a starting set, unless there is none. */
  lemma RangeIsStart(v: Version, level: nat, begin: Bound, end: Bound, files: seq<FileMeta>)
    requires WellFormed(v) && level + 1 < NUM_LEVELS
    requires forall f :: f in files ==> f in v[level]
    requires ContainsOverlapping(v[level], begin, end, Members(files))
    requires level == 0 ==> Closed(v[level], Members(files)) && (NoDuplicates(v[level]) ==> NoDuplicates(files))
    requires level > 0 ==> files == Overlapping(v[level], begin, end)
    ensures files != [] ==> Startable(v, level, files)
    ensures files == [] ==> forall f :: f in v[level] ==> !Overlaps(f, begin, end)
  {
    hide SortedEntries, Closed, Convex, ValidFile, NoDuplicates;
    if level > 0 {
      OverlappingIsConvex(v[level], begin, end);
    } else {
      SortedHasNoDuplicates(v[0]);
    }
  }

  lemma CutIsStartable(v: Version, level: nat, files: seq<FileMeta>, n: nat)
    requires WellFormed(v) && 0 < level && level + 1 < NUM_LEVELS && n <= |files| && (n == 0 ==> files == [])
    requires files != [] ==> Startable(v, level, files)
    ensures files != [] ==> Startable(v, level, files[..n])
  {
    hide SortedEntries, Convex, ValidFile;
    if files != [] {
      PrefixIsConvex(v[level], files, n);
    }
  }

  /** Cutting a run of consecutive files short leaves a run of consecutive files. */
  lemma PrefixIsConvex(fs: seq<FileMeta>, chosen: seq<FileMeta>, n: nat)
    requires ValidFiles(fs) && Disjoint(fs) && Disjoint(chosen) && n <= |chosen|
    requires Members(chosen) <= Members(fs) && Convex(fs, Members(chosen))
    ensures Disjoint(chosen[..n]) && Convex(fs, Members(chosen[..n])) && Members(chosen[..n]) <= Members(fs)
  {
    forall i, j, k | 0 <= i < j < k < |fs| && fs[i] in chosen[..n] && fs[k] in chosen[..n]
      ensures fs[j] in chosen[..n]
    {
      assert fs[i] in Members(chosen) && fs[k] in Members(chosen);
      assert fs[j] in Members(chosen);
      var q :| 0 <= q < n && chosen[q] == fs[k];
      var p :| 0 <= p < |chosen| && chosen[p] == fs[j];
      if q <= p {
        InOrder(fs, j, k);
        BeforeIsStrictTotalOrder(fs[j].smallest, fs[k].smallest, fs[j].smallest);
        ChosenInOrder(fs, chosen, q, p);
      }
    }
    forall f | f in chosen[..n] ensures f in fs {
      assert f in Members(chosen);
    }
  }

  lemma ChosenInOrder(fs: seq<FileMeta>, chosen: seq<FileMeta>, q: nat, p: nat)
    requires ValidFiles(fs) && Members(chosen) <= Members(fs) && Disjoint(chosen) && q <= p < |chosen|
    ensures AtOrBefore(chosen[q].smallest, chosen[p].smallest)
  {
    assert chosen[q] in Members(chosen) && chosen[q] in fs;
    FileBounds(chosen[q], chosen[q].entries[0]);
  }
}
