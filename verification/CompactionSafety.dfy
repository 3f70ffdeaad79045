/** What installing compaction results does to a version: it keeps the order invariants, and it keeps every read
    at or above the smallest snapshot, except in one case that is characterised exactly. */
module CompactionSafety {
  import opened InternalKeys
  import opened MultiVersion
  import opened Levels
  import opened InputSelection
  import opened CompactionInputs
  import opened Compactions

  // ----- the inputs chosen by SetupOtherInputs -----

  /** What remains on the input level is newer than what was taken from it. */
  lemma RemainingIsNewer(v: Version, level: nat, in0: seq<FileMeta>, in1: seq<FileMeta>, f: FileMeta, a: Entry,
                         g: FileMeta, b: Entry)
    requires WellFormed(v) && Selected(v, level, in0, in1)
    requires f in in0 && a in f.entries
    requires g in v[level] && g !in in0 && b in g.entries && b.key.user == a.key.user
    ensures b.key.sequence > a.key.sequence
  {
    hide Closed, Convex, BoundaryClosed, Disjoint, ValidFiles, Between;
    if level == 0 {
      ClosedExcludes(v[level], in0, f, a, g, b);
    } else {
      LeftIsNewer(v[level], in0, f, a, g, b);
    }
  }

  lemma ClosedExcludes(fs: seq<FileMeta>, chosen: seq<FileMeta>, f: FileMeta, a: Entry, g: FileMeta, b: Entry)
    requires ValidFiles(fs) && Members(chosen) <= Members(fs) && Closed(fs, Members(chosen))
    requires f in chosen && a in f.entries
    requires g in fs && b in g.entries && a.key.user == b.key.user
    ensures g in chosen
  {
    assert f in Members(chosen) && f in fs;
    FileBounds(f, a);
    FileBounds(g, b);
    assert Touches(g, f);
    assert g in Members(chosen);
  }

  lemma LeftIsNewer(fs: seq<FileMeta>, chosen: seq<FileMeta>, f: FileMeta, a: Entry, g: FileMeta, b: Entry)
    requires ValidFiles(fs) && Disjoint(fs) && Members(chosen) <= Members(fs)
    requires Convex(fs, Members(chosen)) && BoundaryClosed(fs, chosen)
    requires f in chosen && a in f.entries
    requires g in fs && b in g.entries && a.key.user == b.key.user
    ensures g in chosen || b.key.sequence > a.key.sequence
  {
    hide Convex, BoundaryClosed, SortedEntries;
    assert f in Members(chosen) && f in fs;
    FileBounds(f, a);
    FileBounds(g, b);
    var i :| 0 <= i < |fs| && fs[i] == f;
    var j :| 0 <= j < |fs| && fs[j] == g;
    if i < j {
      RightEdgeExcludes(fs, chosen, i, j, a, b);
    }
  }

  lemma RightEdgeExcludes(fs: seq<FileMeta>, chosen: seq<FileMeta>, i: nat, j: nat, a: Entry, b: Entry)
    requires ValidFiles(fs) && Disjoint(fs) && Members(chosen) <= Members(fs)
    requires Convex(fs, Members(chosen)) && BoundaryClosed(fs, chosen)
    requires i < j < |fs| && fs[i] in chosen && a in fs[i].entries && b in fs[j].entries && a.key.user == b.key.user
    ensures fs[j] in chosen
  {
    var _, key := RangeKeys(chosen);
    var h :| h in chosen && h.largest == key;
    assert h in Members(chosen);
    var k :| 0 <= k < |fs| && fs[k] == h;
    assert fs[i] in Members(chosen);
    FileBounds(fs[i], a);
    FileBounds(fs[j], b);
    InOrder(fs, i, k);
    InOrder(fs, k, i);
    InOrder(fs, k, j);
    InOrder(fs, j, k);
    BeforeIsStrictTotalOrder(fs[i].largest, key, fs[i].largest);
    assert !ContinuesAfter(fs[j], key);
  }

  lemma {:induction false} RangeKeys(files: seq<FileMeta>) returns (lo: InternalKey, hi: InternalKey)
    requires files != []
    ensures IsSmallestKey(files, lo) && IsLargestKey(files, hi)
  {
    var f := files[|files| - 1];
    if |files| == 1 {
      lo, hi := f.smallest, f.largest;
    } else {
      var rest := files[..|files| - 1];
      lo, hi := RangeKeys(rest);
      assert files == rest + [f];
      forall g | g in rest
        ensures Before(f.smallest, lo) ==> AtOrBefore(f.smallest, g.smallest)
        ensures Before(hi, f.largest) ==> AtOrBefore(g.largest, f.largest)
      {
        BeforeIsStrictTotalOrder(f.smallest, lo, g.smallest);
        BeforeIsStrictTotalOrder(g.largest, hi, f.largest);
      }
      BeforeIsStrictTotalOrder(f.smallest, lo, lo);
      BeforeIsStrictTotalOrder(hi, f.largest, hi);
      lo := if Before(f.smallest, lo) then f.smallest else lo;
      hi := if Before(hi, f.largest) then f.largest else hi;
    }
  }

  /** A level+1 file sharing a user key with a level file that was taken is taken too. */
  lemma SharedKeyIsTaken(v: Version, level: nat, in0: seq<FileMeta>, in1: seq<FileMeta>, f: FileMeta, a: Entry,
                         g: FileMeta, b: Entry)
    requires WellFormed(v) && Selected(v, level, in0, in1)
    requires f in in0 && a in f.entries
    requires g in v[level + 1] && b in g.entries && b.key.user == a.key.user
    ensures g in in1
  {
    hide Closed, Convex, BoundaryClosed, Disjoint, ValidFile, SortedBySmallest, NoDuplicates, Between;
    assert f in Members(in0) && f in v[level];
    FileBounds(f, a);
    FileBounds(g, b);
    TouchingIsTaken(v[level + 1], in0, in1, f, g);
  }

  lemma TouchingIsTaken(fs: seq<FileMeta>, in0: seq<FileMeta>, in1: seq<FileMeta>, f: FileMeta, g: FileMeta)
    requires Between(fs, in0, in1) && f in in0 && g in fs && Touches(f, g)
    ensures g in in1
  {
    hide Overlapping;
    var lo, hi :| IsSmallestKey(in0, lo) && IsLargestKey(in0, hi) && in1 == Overlapping(fs, At(lo.user), At(hi.user));
    InRange(in0, f, lo, hi);
    assert Overlaps(g, At(lo.user), At(hi.user));
  }

  lemma InRange(files: seq<FileMeta>, f: FileMeta, lo: InternalKey, hi: InternalKey)
    requires IsSmallestKey(files, lo) && IsLargestKey(files, hi) && f in files
    ensures lo.user <= f.smallest.user && f.largest.user <= hi.user
  {
  }

  /** File `g` lies entirely before (`left`) or entirely after each of the files. */
  ghost predicate AllOf(files: seq<FileMeta>, g: FileMeta, left: bool) {
    forall f :: f in files ==> if left then Ahead(g.largest, f.smallest) else Ahead(f.largest, g.smallest)
  }

  /** A level+1 file left out lies entirely before or entirely after all inputs. */
  lemma OmittedIsApart(v: Version, level: nat, in0: seq<FileMeta>, in1: seq<FileMeta>, g: FileMeta)
    requires WellFormed(v) && Selected(v, level, in0, in1)
    requires g in v[level + 1] && g !in in1
    ensures AllOf(in0 + in1, g, true) || AllOf(in0 + in1, g, false)
  {
    hide Closed, Convex, BoundaryClosed, Disjoint, ValidFiles, SortedBySmallest, NoDuplicates, Between;
    ApartFromRange(v[level + 1], in0, in1, g);
  }

  lemma ApartFromRange(fs: seq<FileMeta>, in0: seq<FileMeta>, in1: seq<FileMeta>, g: FileMeta)
    requires ValidFiles(fs) && Disjoint(fs) && Between(fs, in0, in1)
    requires g in fs && g !in in1
    ensures AllOf(in0 + in1, g, true) || AllOf(in0 + in1, g, false)
  {
    var lo, hi :| IsSmallestKey(in0, lo) && IsLargestKey(in0, hi) && in1 == Overlapping(fs, At(lo.user), At(hi.user));
    hide Disjoint, ValidFiles;
    var left := g.largest.user < lo.user;
    forall f | f in in0 + in1 ensures if left then Ahead(g.largest, f.smallest) else Ahead(f.largest, g.smallest) {
      if f in in1 {
        OutsideIsApart(fs, At(lo.user), At(hi.user), g, f);
      } else {
        assert AtOrBefore(lo, f.smallest) && AtOrBefore(f.largest, hi);
      }
    }
  }

  lemma OutsideIsApart(fs: seq<FileMeta>, begin: Bound, end: Bound, g: FileMeta, f: FileMeta)
    requires ValidFiles(fs) && Disjoint(fs) && f in fs && g in fs
    requires Overlaps(f, begin, end) && !Overlaps(g, begin, end)
    ensures if AfterFile(begin, g) then Ahead(g.largest, f.smallest) else Ahead(f.largest, g.smallest)
  {
    var i :| 0 <= i < |fs| && fs[i] == g;
    var j :| 0 <= j < |fs| && fs[j] == f;
    InOrder(fs, i, j);
    InOrder(fs, j, i);
  }

  // ----- the order invariants -----

  ghost predicate InputFile(level: nat, in0: seq<FileMeta>, in1: seq<FileMeta>, l: int, f: FileMeta) {
    (l == level && f in in0) || (l == level + 1 && f in in1)
  }

  /** Output files: tables cut from the input entries, in order, with numbers of their own (a trivial move keeps
      the number of its input). */
  ghost predicate ValidOutputs(v: Version, in0: seq<FileMeta>, in1: seq<FileMeta>, out: seq<FileMeta>) {
    && ValidFiles(out) && Disjoint(out)
    && (forall f, e :: f in out && e in f.entries ==> FromInput(in0, in1, e))
    && (forall f, g :: f in out && g in out && f.number == g.number ==> f == g)
    && (forall f, l, g :: f in out && 0 <= l < |v| && g in v[l] && f.number == g.number ==> g in in0 + in1)
  }

  ghost predicate FromInput(in0: seq<FileMeta>, in1: seq<FileMeta>, e: Entry) {
    exists f :: f in in0 + in1 && e in f.entries
  }

  /** `w` is `v` after the version edit of a compaction: inputs deleted, outputs added to level+1. */
  ghost predicate Replaces(v: Version, level: nat, in0: seq<FileMeta>, in1: seq<FileMeta>, out: seq<FileMeta>,
                           w: Version)
  {
    && |w| == |v| && level + 1 < |v|
    && (forall l :: 0 <= l < |v| && l != level && l != level + 1 ==> w[l] == v[l])
    && SortedBySmallest(w[level]) && SortedBySmallest(w[level + 1])
    && (forall f :: f in w[level] <==> f in v[level] && f !in in0)
    && (forall f :: f in w[level + 1] <==> (f in v[level + 1] && f !in in1) || f in out)
  }

  ghost predicate Separated(f: FileMeta, g: FileMeta) {
    Ahead(f.largest, g.smallest) || Ahead(g.largest, f.smallest)
  }

  lemma SeparatedIsDisjoint(fs: seq<FileMeta>)
    requires ValidFiles(fs) && SortedBySmallest(fs)
    requires forall f, g :: f in fs && g in fs && f != g ==> Separated(f, g)
    ensures Disjoint(fs)
  {
    forall i, j | 0 <= i < j < |fs| ensures Ahead(fs[i].largest, fs[j].smallest) {
      var f, g := fs[i], fs[j];
      assert BySmallest(f, g);
      BeforeIsStrictTotalOrder(f.smallest, g.smallest, f.smallest);
      assert f != g && Separated(f, g);
      assert ValidFile(g);
      FileBounds(g, g.entries[0]);
    }
  }

  lemma DisjointIsSeparated(fs: seq<FileMeta>, f: FileMeta, g: FileMeta)
    requires Disjoint(fs) && f in fs && g in fs && f != g
    ensures Separated(f, g)
  {
    var i :| 0 <= i < |fs| && fs[i] == f;
    var j :| 0 <= j < |fs| && fs[j] == g;
  }

  lemma OutputIsApart(v: Version, level: nat, in0: seq<FileMeta>, in1: seq<FileMeta>, out: seq<FileMeta>, f: FileMeta,
                      g: FileMeta)
    requires WellFormed(v) && Selected(v, level, in0, in1) && ValidOutputs(v, in0, in1, out)
    requires f in out && g in v[level + 1] && g !in in1
    ensures Separated(f, g)
  {
    OmittedIsApart(v, level, in0, in1, g);
    assert ValidFile(f) && f.entries[0] in f.entries && f.entries[|f.entries| - 1] in f.entries;
    hide WellFormed, Selected, ValidFile, ValidFiles, Disjoint;
    var left := AllOf(in0 + in1, g, true);
    InputIsApart(v, level, in0, in1, g, left, f.entries[0]);
    InputIsApart(v, level, in0, in1, g, left, f.entries[|f.entries| - 1]);
  }

  lemma InputIsApart(v: Version, level: nat, in0: seq<FileMeta>, in1: seq<FileMeta>, g: FileMeta, left: bool, e: Entry)
    requires WellFormed(v) && Selected(v, level, in0, in1)
    requires AllOf(in0 + in1, g, left) && FromInput(in0, in1, e)
    ensures if left then Ahead(g.largest, e.key) else Ahead(e.key, g.smallest)
  {
    var p :| p in in0 + in1 && e in p.entries;
    InputIsValid(v, level, in0, in1, p);
    hide WellFormed, Selected;
    FileBounds(p, e);
  }

  lemma InputIsValid(v: Version, level: nat, in0: seq<FileMeta>, in1: seq<FileMeta>, f: FileMeta)
    requires WellFormed(v) && Selected(v, level, in0, in1) && f in in0 + in1
    ensures ValidFile(f) && ((f in v[level] && f in in0) || (f in v[level + 1] && f in in1))
  {
    if f in in0 {
      assert f in Members(in0);
    }
  }

  lemma ReplaceKeepsFiles(v: Version, level: nat, in0: seq<FileMeta>, in1: seq<FileMeta>, out: seq<FileMeta>,
                          w: Version)
    requires WellFormed(v) && ValidOutputs(v, in0, in1, out) && Replaces(v, level, in0, in1, out, w)
    ensures |w| == NUM_LEVELS && forall l :: 0 <= l < |w| ==> ValidFiles(w[l])
  {
    hide ValidFile, Disjoint, SortedBySmallest;
  }

  lemma ReplaceKeepsOutputLevel(v: Version, level: nat, in0: seq<FileMeta>, in1: seq<FileMeta>, out: seq<FileMeta>,
                                w: Version)
    requires WellFormed(v) && Selected(v, level, in0, in1) && ValidOutputs(v, in0, in1, out)
    requires Replaces(v, level, in0, in1, out, w) && ValidFiles(w[level + 1])
    ensures Disjoint(w[level + 1])
  {
    hide Disjoint, ValidFiles, SortedBySmallest, Separated, Selected;
    forall f, g | f in w[level + 1] && g in w[level + 1] && f != g ensures Separated(f, g) {
      if f in out && g in out {
        DisjointIsSeparated(out, f, g);
      } else if f in out {
        OutputIsApart(v, level, in0, in1, out, f, g);
      } else if g in out {
        OutputIsApart(v, level, in0, in1, out, g, f);
        SeparatedIsSymmetric(f, g);
      } else {
        DisjointIsSeparated(v[level + 1], f, g);
      }
    }
    SeparatedIsDisjoint(w[level + 1]);
  }

  lemma SeparatedIsSymmetric(f: FileMeta, g: FileMeta)
    ensures Separated(f, g) == Separated(g, f)
  {
  }

  /** (I1) after the edit. */
  lemma ReplaceKeepsLevels(v: Version, level: nat, in0: seq<FileMeta>, in1: seq<FileMeta>, out: seq<FileMeta>,
                           w: Version)
    requires WellFormed(v) && Selected(v, level, in0, in1) && ValidOutputs(v, in0, in1, out)
    requires Replaces(v, level, in0, in1, out, w)
    ensures WellFormed(w)
  {
    hide Disjoint, ValidFiles, SortedBySmallest, Separated, Selected, ValidOutputs;
    ReplaceKeepsFiles(v, level, in0, in1, out, w);
    ReplaceKeepsOutputLevel(v, level, in0, in1, out, w);
    if level > 0 {
      forall f, g | f in w[level] && g in w[level] && f != g ensures Separated(f, g) {
        DisjointIsSeparated(v[level], f, g);
      }
      SeparatedIsDisjoint(w[level]);
    }
  }

  /** Where an entry of the new version was in the old one. */
  lemma Origin(v: Version, level: nat, in0: seq<FileMeta>, in1: seq<FileMeta>, out: seq<FileMeta>, w: Version, l: int,
               f: FileMeta, e: Entry)
    returns (k: int, h: FileMeta)
    requires WellFormed(v) && Selected(v, level, in0, in1) && ValidOutputs(v, in0, in1, out)
    requires Replaces(v, level, in0, in1, out, w) && OnLevel(w, l, f, e)
    ensures OnLevel(v, k, h, e)
    ensures if l == level + 1 && f in out then InputFile(level, in0, in1, k, h)
              else k == l && h == f && !InputFile(level, in0, in1, l, f)
  {
    if l == level + 1 && f in out {
      hide WellFormed, Selected, Replaces;
      assert FromInput(in0, in1, e);
      k, h := HomeOfInput(v, level, in0, in1, e);
    } else {
      hide WellFormed, Selected, ValidOutputs;
      k, h := l, f;
    }
  }

  lemma HomeOfInput(v: Version, level: nat, in0: seq<FileMeta>, in1: seq<FileMeta>, e: Entry)
      returns (l: nat, f: FileMeta)
    requires WellFormed(v) && Selected(v, level, in0, in1) && FromInput(in0, in1, e)
    ensures level + 1 < |v| && OnLevel(v, l, f, e) && InputFile(level, in0, in1, l, f)
  {
    hide WellFormed;
    f :| f in in0 + in1 && e in f.entries;
    InputIsValid(v, level, in0, in1, f);
    l := if f in v[level] && f in in0 then level else level + 1;
  }

  lemma SelectedShape(v: Version, level: nat, in0: seq<FileMeta>, in1: seq<FileMeta>)
    requires Selected(v, level, in0, in1)
    ensures |v| == NUM_LEVELS && level + 1 < NUM_LEVELS
  {
  }

  /** (I2) after the edit. */
  lemma ReplaceKeepsLayers(v: Version, level: nat, in0: seq<FileMeta>, in1: seq<FileMeta>, out: seq<FileMeta>,
                           w: Version)
    requires ValidVersion(v) && Selected(v, level, in0, in1) && ValidOutputs(v, in0, in1, out)
    requires Replaces(v, level, in0, in1, out, w)
    ensures Layered(w)
  {
    hide WellFormed, DistinctNumbers, SortedBySmallest, Selected, ValidOutputs, Replaces;
    forall l, f, a, m, g, b | OnLevel(w, l, f, a) && OnLevel(w, m, g, b) && Shallower(l, f, m, g)
      && a.key.user == b.key.user
      ensures a.key.sequence > b.key.sequence
    {
      LayersKept(v, level, in0, in1, out, w, l, f, a, m, g, b);
    }
  }

  lemma LayersKept(v: Version, level: nat, in0: seq<FileMeta>, in1: seq<FileMeta>, out: seq<FileMeta>, w: Version,
                   l: int, f: FileMeta, a: Entry, m: int, g: FileMeta, b: Entry)
    requires ValidVersion(v) && Selected(v, level, in0, in1) && ValidOutputs(v, in0, in1, out)
    requires Replaces(v, level, in0, in1, out, w)
    requires OnLevel(w, l, f, a) && OnLevel(w, m, g, b) && Shallower(l, f, m, g) && a.key.user == b.key.user
    ensures a.key.sequence > b.key.sequence
  {
    hide WellFormed, DistinctNumbers, SortedBySmallest, Selected, ValidOutputs, Replaces;
    var k, h := Origin(v, level, in0, in1, out, w, l, f, a);
    var n, p := Origin(v, level, in0, in1, out, w, m, g, b);
    if k == n == level && h !in in0 && p in in0 {
      RemainingIsNewer(v, level, in0, in1, p, b, h, a);
    } else {
      assert Shallower(k, h, n, p);
    }
  }

  lemma ReplaceKeepsNumbers(v: Version, level: nat, in0: seq<FileMeta>, in1: seq<FileMeta>, out: seq<FileMeta>,
                            w: Version)
    requires WellFormed(v) && DistinctNumbers(v) && Selected(v, level, in0, in1) && ValidOutputs(v, in0, in1, out)
    requires Replaces(v, level, in0, in1, out, w)
    ensures DistinctNumbers(w)
  {
    hide WellFormed, Selected, ValidOutputs, Replaces;
    forall l, f, m, g | 0 <= l < |w| && 0 <= m < |w| && f in w[l] && g in w[m] && f.number == g.number
      ensures l == m && f == g
    {
      NumbersKept(v, level, in0, in1, out, w, l, f, m, g);
    }
  }

  lemma NumbersKept(v: Version, level: nat, in0: seq<FileMeta>, in1: seq<FileMeta>, out: seq<FileMeta>, w: Version,
                    l: int, f: FileMeta, m: int, g: FileMeta)
    requires WellFormed(v) && DistinctNumbers(v) && Selected(v, level, in0, in1) && ValidOutputs(v, in0, in1, out)
    requires Replaces(v, level, in0, in1, out, w)
    requires 0 <= l < |w| && 0 <= m < |w| && f in w[l] && g in w[m] && f.number == g.number
    ensures l == m && f == g
  {
    hide WellFormed, ValidFiles, Disjoint, SortedBySmallest, Selected;
    var fOut, gOut := l == level + 1 && f in out, m == level + 1 && g in out;
    assert fOut || (f in v[l] && !InputFile(level, in0, in1, l, f));
    assert gOut || (g in v[m] && !InputFile(level, in0, in1, m, g));
    if fOut && !gOut {
      OutNumberIsNotOld(v, level, in0, in1, out, f, m, g);
    } else if gOut && !fOut {
      OutNumberIsNotOld(v, level, in0, in1, out, g, l, f);
    }
  }

  lemma OutNumberIsNotOld(v: Version, level: nat, in0: seq<FileMeta>, in1: seq<FileMeta>, out: seq<FileMeta>,
                          f: FileMeta, m: int, g: FileMeta)
    requires WellFormed(v) && DistinctNumbers(v) && Selected(v, level, in0, in1) && ValidOutputs(v, in0, in1, out)
    requires f in out && 0 <= m < |v| && g in v[m] && !InputFile(level, in0, in1, m, g)
    ensures f.number != g.number
  {
    if f.number == g.number {
      InputIsValid(v, level, in0, in1, g);
      assert false;
    }
  }

  /** Installing compaction results keeps both order invariants. */
  lemma ReplaceKeepsValid(v: Version, level: nat, in0: seq<FileMeta>, in1: seq<FileMeta>, out: seq<FileMeta>,
                          w: Version)
    requires ValidVersion(v) && Selected(v, level, in0, in1) && ValidOutputs(v, in0, in1, out)
    requires Replaces(v, level, in0, in1, out, w)
    ensures ValidVersion(w)
  {
    hide WellFormed, DistinctNumbers, Layered, Selected, ValidOutputs, Replaces;
    ReplaceKeepsLevels(v, level, in0, in1, out, w);
    ReplaceKeepsLayers(v, level, in0, in1, out, w);
    ReplaceKeepsNumbers(v, level, in0, in1, out, w);
  }

  // ----- the meaning -----

  /** One compaction: the version it starts from, its inputs, the merged input sequence, the smallest snapshot, the
      output files and the version it installs. */
  datatype Job = Job(v: Version, level: nat, in0: seq<FileMeta>, in1: seq<FileMeta>, input: seq<Entry>, snap: nat,
                     out: seq<FileMeta>, w: Version)

  ghost predicate Drops(c: Job, e: Entry) {
    e in c.input && Dropped(c.v, c.level, c.input, c.snap, e)
  }

  /** The outputs hold exactly what the drop loop keeps of the inputs. */
  ghost predicate Compacts(c: Job) {
    && SortedEntries(c.input)
    && (forall e :: e in c.input <==> FromInput(c.in0, c.in1, e))
    && (forall e :: (exists f :: f in c.out && e in f.entries) <==> e in c.input && !Drops(c, e))
  }

  ghost predicate Installs(c: Job) {
    && Selected(c.v, c.level, c.in0, c.in1) && ValidOutputs(c.v, c.in0, c.in1, c.out)
    && Replaces(c.v, c.level, c.in0, c.in1, c.out, c.w)
    && Compacts(c)
  }

  /** The new version holds the old entries without the dropped ones. */
  lemma EntriesAfter(c: Job, e: Entry)
    requires ValidVersion(c.v) && Installs(c)
    ensures e in AllEntries(c.w) <==> e in AllEntries(c.v) && !Drops(c, e)
  {
    hide *;
    if e in AllEntries(c.w) {
      NothingNew(c, e);
    }
    if e in AllEntries(c.v) && !Drops(c, e) {
      KeptSurvives(c, e);
    }
  }

  lemma NothingNew(c: Job, e: Entry)
    requires ValidVersion(c.v) && Installs(c) && e in AllEntries(c.w)
    ensures e in AllEntries(c.v) && !Drops(c, e)
  {
    hide Drops, DistinctNumbers, Layered, WellFormed, AllEntries, Selected, ValidOutputs, Replaces, Compacts;
    var l, f := Locate(c.w, e);
    var k, h := Origin(c.v, c.level, c.in0, c.in1, c.out, c.w, l, f, e);
    Located(c.v, k, h, e);
    if l == c.level + 1 && f in c.out {
      OutputIsKept(c, f, e);
    } else {
      OutsideIsNotInput(c, k, h, e);
    }
  }

  lemma OutputIsKept(c: Job, f: FileMeta, e: Entry)
    requires Compacts(c) && f in c.out && e in f.entries
    ensures !Drops(c, e)
  {
  }

  lemma OutsideIsNotInput(c: Job, l: int, f: FileMeta, e: Entry)
    requires ValidVersion(c.v) && Installs(c) && OnLevel(c.v, l, f, e) && !InputFile(c.level, c.in0, c.in1, l, f)
    ensures !Drops(c, e)
  {
    hide DistinctNumbers, Layered, WellFormed, Selected, ValidOutputs, Replaces, Dropped;
    if e in c.input {
      var m, g := HomeOfInput(c.v, c.level, c.in0, c.in1, e);
      OneHome(c.v, l, f, e, m, g, e);
    }
  }

  lemma KeptSurvives(c: Job, e: Entry)
    requires ValidVersion(c.v) && Installs(c) && e in AllEntries(c.v) && !Drops(c, e)
    ensures e in AllEntries(c.w)
  {
    hide Drops, DistinctNumbers, Layered, WellFormed, AllEntries, Selected, ValidOutputs, SortedEntries,
         SortedBySmallest;
    var l, f := Locate(c.v, e);
    if e in c.input {
      var g :| g in c.out && e in g.entries;
      Located(c.w, c.level + 1, g, e);
    } else {
      assert f !in c.in0 + c.in1;
      Located(c.w, l, f, e);
    }
  }

  lemma DropsInput(c: Job, e: Entry)
    ensures Drops(c, e) ==> e in c.input
  {
  }

  lemma DropsComeFromInput(c: Job, e: Entry)
    requires Installs(c) && Drops(c, e)
    ensures FromInput(c.in0, c.in1, e)
  {
  }

  /** `g` is a level+1 file left out that begins with the user key of `e`, below `e`. */
  ghost predicate OlderOmitted(v: Version, level: nat, in1: seq<FileMeta>, e: Entry, g: FileMeta) {
    && level + 1 < |v| && g in v[level + 1] && g !in in1
    && g.smallest.user == e.key.user && g.smallest.sequence < e.key.sequence
  }

  /** `g` is the first such file. */
  ghost predicate NextOmitted(v: Version, level: nat, in1: seq<FileMeta>, e: Entry, g: FileMeta) {
    && OlderOmitted(v, level, in1, e, g)
    && forall h :: OlderOmitted(v, level, in1, e, h) ==> h.smallest.sequence <= g.smallest.sequence
  }

  /** The one case in which a compaction changes a read: the newest entry for `u` at the smallest snapshot is a
      deletion among the inputs, no level below the output covers `u`, and the level+1 inputs end inside the
      entries of `u` so that the next file, left out, begins with an older value of `u`. */
  ghost predicate Resurrects(v: Version, level: nat, in0: seq<FileMeta>, in1: seq<FileMeta>, snap: nat, u: UserKey) {
    BaseLevel(v, level, u) &&
    exists e, g ::
      && Newest(AllEntries(v), u, snap, e) && e.key.kind.Deletion? && FromInput(in0, in1, e)
      && NextOmitted(v, level, in1, e, g) && g.smallest.kind.Value?
  }

  /** Whatever survives and is older than a dropped deletion sits in a level+1 file left out, and that file begins
      with the same user key. */
  lemma SurvivorIsOmitted(c: Job, e: Entry, y: Entry) returns (g: FileMeta)
    requires ValidVersion(c.v) && Installs(c)
    requires e in c.input && e.key.sequence <= c.snap && BaseLevel(c.v, c.level, e.key.user)
    requires y in AllEntries(c.w) && y.key.user == e.key.user && y.key.sequence < e.key.sequence
    ensures OlderOmitted(c.v, c.level, c.in1, e, g) && y in g.entries
  {
    EntriesAfter(c, y);
    var m: int;
    m, g := Locate(c.v, y);
    var l, f := HomeOfInput(c.v, c.level, c.in0, c.in1, e);
    assert Hidden(c.input, c.snap, y);
    assert g !in c.in0 + c.in1;
    OlderPlace(c.v, c.level, c.in0, c.in1, l, f, e, m, g, y);
  }

  lemma NotBelowBase(v: Version, level: nat, m: int, g: FileMeta, y: Entry)
    requires WellFormed(v) && OnLevel(v, m, g, y) && BaseLevel(v, level, y.key.user)
    ensures m <= level + 1
  {
    FileBounds(g, y);
  }

  lemma OlderPlace(v: Version, level: nat, in0: seq<FileMeta>, in1: seq<FileMeta>, l: int, f: FileMeta, e: Entry,
                   m: int, g: FileMeta, y: Entry)
    requires ValidVersion(v) && Selected(v, level, in0, in1)
    requires OnLevel(v, l, f, e) && OnLevel(v, m, g, y) && y.key.user == e.key.user && y.key.sequence < e.key.sequence
    requires InputFile(level, in0, in1, l, f)
    requires g !in in0 && g !in in1 && BaseLevel(v, level, e.key.user)
    ensures OlderOmitted(v, level, in1, e, g)
  {
    hide WellFormed, DistinctNumbers, Layered, BaseLevel, Selected;
    SelectedShape(v, level, in0, in1);
    NotBelowBase(v, level, m, g, y);
    OlderIsDeeper(v, l, f, e, m, g, y);
    if m == level {
      RemainingIsNewer(v, level, in0, in1, f, e, g, y);
    } else if l == level {
      SharedKeyIsTaken(v, level, in0, in1, f, e, g, y);
    } else {
      LevelIsDisjoint(v, level + 1);
      FollowingFile(v[level + 1], f, e, g, y);
    }
  }

  lemma OlderIsDeeper(v: Version, l: int, f: FileMeta, e: Entry, m: int, g: FileMeta, y: Entry)
    requires Layered(v) && OnLevel(v, l, f, e) && OnLevel(v, m, g, y) && y.key.user == e.key.user
    requires y.key.sequence < e.key.sequence
    ensures !Shallower(m, g, l, f)
  {
  }

  lemma LevelIsDisjoint(v: Version, l: nat)
    requires WellFormed(v) && 1 <= l < |v|
    ensures ValidFiles(v[l]) && Disjoint(v[l])
  {
  }

  lemma FollowingFile(fs: seq<FileMeta>, f: FileMeta, e: Entry, g: FileMeta, y: Entry)
    requires ValidFiles(fs) && Disjoint(fs) && f in fs && g in fs && f != g
    requires e in f.entries && y in g.entries && y.key.user == e.key.user && y.key.sequence < e.key.sequence
    ensures g.smallest.user == e.key.user && g.smallest.sequence < e.key.sequence
    ensures Ahead(f.largest, g.smallest)
  {
    FileBounds(f, e);
    FileBounds(g, y);
    var i :| 0 <= i < |fs| && fs[i] == f;
    var j :| 0 <= j < |fs| && fs[j] == g;
  }

  /** The first entry of an omitted file survives, and is the newest of its user key in that file. */
  lemma OmittedSurvives(c: Job, e: Entry, g: FileMeta) returns (x: Entry)
    requires ValidVersion(c.v) && Installs(c) && OlderOmitted(c.v, c.level, c.in1, e, g)
    ensures x.key == g.smallest && x in AllEntries(c.w)
    ensures forall y :: y in g.entries && y.key.user == e.key.user ==> y.key.sequence <= x.key.sequence
    ensures forall y :: y in g.entries && y.key.user == x.key.user && y.key.sequence == x.key.sequence ==> y == x
  {
    assert ValidFile(g);
    x := g.entries[0];
    Located(c.w, c.level + 1, g, x);
  }

  /** Nothing hides the newest entry of a read, so if it is dropped it is an obsolete deletion. */
  lemma NewestIsNotHidden(c: Job, u: UserKey, s: nat, e: Entry)
    requires ValidVersion(c.v) && Installs(c)
    requires s >= c.snap && Newest(AllEntries(c.v), u, s, e) && Drops(c, e)
    ensures Obsolete(c.v, c.level, c.snap, e)
  {
    forall x | x in c.input && x.key.user == u && x.key.sequence <= s ensures x.key.sequence <= e.key.sequence {
      var l, f := HomeOfInput(c.v, c.level, c.in0, c.in1, x);
      Located(c.v, l, f, x);
      assert Covers(AllEntries(c.v), u, s, x);
    }
  }

  /** What a read finds below a dropped deletion is the first entry of the next omitted file. */
  lemma FoundBelow(c: Job, u: UserKey, s: nat, e: Entry, y: Entry) returns (g: FileMeta)
    requires ValidVersion(c.v) && Installs(c)
    requires s >= c.snap && e in c.input && Obsolete(c.v, c.level, c.snap, e) && e.key.user == u
    requires Newest(AllEntries(c.w), u, s, y) && y.key.sequence < e.key.sequence
    ensures NextOmitted(c.v, c.level, c.in1, e, g) && y.key == g.smallest
  {
    hide ValidVersion, Installs, BaseLevel, AllEntries, ValidFile;
    g := SurvivorIsOmitted(c, e, y);
    var x := OmittedSurvives(c, e, g);
    assert Covers(AllEntries(c.w), u, s, x);
    forall h | OlderOmitted(c.v, c.level, c.in1, e, h) ensures h.smallest.sequence <= g.smallest.sequence {
      var z := OmittedSurvives(c, e, h);
      assert Covers(AllEntries(c.w), u, s, z);
    }
  }

  ghost predicate ReadKept(c: Job, u: UserKey, s: nat) {
    Seen(Read(AllEntries(c.w), u, s)) == Seen(Read(AllEntries(c.v), u, s))
  }

  /** Compaction adds no entries. */
  lemma OnlyOldEntries(c: Job)
    requires ValidVersion(c.v) && Installs(c)
    ensures ValidVersion(c.w) && Unique(AllEntries(c.v)) && Unique(AllEntries(c.w))
    ensures AllEntries(c.w) <= AllEntries(c.v)
  {
    hide *;
    ReplaceIsValid(c);
    EntriesAreUnique(c.v);
    EntriesAreUnique(c.w);
    forall x | x in AllEntries(c.w) ensures x in AllEntries(c.v) {
      EntriesAfter(c, x);
    }
  }

  lemma ReplaceIsValid(c: Job)
    requires ValidVersion(c.v) && Installs(c)
    ensures ValidVersion(c.w)
  {
    ReplaceKeepsValid(c.v, c.level, c.in0, c.in1, c.out, c.w);
  }

  /** A compaction keeps a read at or above the smallest snapshot unless it resurrects the user key. */
  lemma KeepsRead(c: Job, u: UserKey, s: nat)
    requires ValidVersion(c.v) && Installs(c) && s >= c.snap
    requires !Resurrects(c.v, c.level, c.in0, c.in1, c.snap, u)
    ensures ReadKept(c, u, s)
  {
    hide ValidVersion, Installs, Unique, Resurrects, Drops, AllEntries, Read;
    OnlyOldEntries(c);
    var S, T := AllEntries(c.v), AllEntries(c.w);
    if x :| Covers(S, u, s, x) {
      var e := NewestExists(S, u, s, x);
      ReadIs(S, u, s, e);
      EntriesAfter(c, e);
      if e in T {
        assert Newest(T, u, s, e);
        ReadIs(T, u, s, e);
      } else {
        DroppedReadsMissing(c, u, s, e);
      }
    } else {
      assert forall x :: Covers(T, u, s, x) ==> Covers(S, u, s, x);
      ReadMissing(S, u, s);
      ReadMissing(T, u, s);
    }
  }

  lemma DroppedReadsMissing(c: Job, u: UserKey, s: nat, e: Entry)
    requires ValidVersion(c.v) && Installs(c) && s >= c.snap
    requires Unique(AllEntries(c.v)) && Unique(AllEntries(c.w)) && AllEntries(c.w) <= AllEntries(c.v)
    requires !Resurrects(c.v, c.level, c.in0, c.in1, c.snap, u)
    requires Newest(AllEntries(c.v), u, s, e) && Drops(c, e) && e !in AllEntries(c.w)
    ensures e.key.kind.Deletion? && Seen(Read(AllEntries(c.w), u, s)) == Missing
  {
    hide ValidVersion, Installs, BaseLevel, AllEntries, Read, Drops, NextOmitted, FromInput;
    NewestIsNotHidden(c, u, s, e);
    DropsInput(c, e);
    DropsComeFromInput(c, e);
    var S, T := AllEntries(c.v), AllEntries(c.w);
    if y0 :| Covers(T, u, s, y0) {
      var y := NewestExists(T, u, s, y0);
      OlderThanNewest(S, T, u, s, e, y);
      ReadIs(T, u, s, y);
      var g := FoundBelow(c, u, s, e, y);
      assert Newest(S, u, c.snap, e) by { NewestAtSnapshot(S, u, s, c.snap, e); }
    } else {
      ReadMissing(T, u, s);
    }
  }

  lemma NewestAtSnapshot(S: set<Entry>, u: UserKey, s: nat, snap: nat, e: Entry)
    requires Newest(S, u, s, e) && e.key.sequence <= snap <= s
    ensures Newest(S, u, snap, e)
  {
    forall x | Covers(S, u, snap, x) ensures x.key.sequence <= e.key.sequence {
      assert Covers(S, u, s, x);
    }
  }

  lemma OlderThanNewest(S: set<Entry>, T: set<Entry>, u: UserKey, s: nat, e: Entry, y: Entry)
    requires Unique(S) && T <= S && Newest(S, u, s, e) && e !in T && Newest(T, u, s, y)
    ensures y.key.sequence < e.key.sequence
  {
    assert Covers(T, u, s, y) && Covers(S, u, s, y) && Covers(S, u, s, e);
  }

  /** In the exceptional case the deleted key is visible again at the smallest snapshot. */
  lemma ResurrectionShows(c: Job, u: UserKey)
    requires ValidVersion(c.v) && Installs(c)
    requires Resurrects(c.v, c.level, c.in0, c.in1, c.snap, u)
    ensures Read(AllEntries(c.v), u, c.snap) == Deleted
    ensures Read(AllEntries(c.w), u, c.snap).Found?
    ensures !ReadKept(c, u, c.snap)
  {
    hide ValidVersion, Installs, BaseLevel, Newest, AllEntries, Read, FromInput, NextOmitted;
    var e, g :| Newest(AllEntries(c.v), u, c.snap, e) && e.key.kind.Deletion? && FromInput(c.in0, c.in1, e)
             && NextOmitted(c.v, c.level, c.in1, e, g) && g.smallest.kind.Value?;
    OlderValueShows(c, u, e, g);
  }

  lemma OlderValueShows(c: Job, u: UserKey, e: Entry, g: FileMeta)
    requires ValidVersion(c.v) && Installs(c) && BaseLevel(c.v, c.level, u)
    requires Newest(AllEntries(c.v), u, c.snap, e) && e.key.kind.Deletion? && FromInput(c.in0, c.in1, e)
    requires NextOmitted(c.v, c.level, c.in1, e, g) && g.smallest.kind.Value?
    ensures Read(AllEntries(c.v), u, c.snap) == Deleted
    ensures Read(AllEntries(c.w), u, c.snap).Found?
  {
    hide ValidVersion, Installs, Unique, Drops, AllEntries, Read, BaseLevel, FromInput;
    var S, T := AllEntries(c.v), AllEntries(c.w);
    assert Covers(S, u, c.snap, e);
    DeletionIsDropped(c, u, e);
    OnlyOldEntries(c);
    ReadIs(S, u, c.snap, e);
    var x := OmittedSurvives(c, e, g);
    assert Covers(T, u, c.snap, x);
    EntriesAfter(c, e);
    var y := NewestExists(T, u, c.snap, x);
    OlderThanNewest(S, T, u, c.snap, e, y);
    var h := FoundBelow(c, u, c.snap, e, y);
    SameKeySameEntry(T, u, c.snap, x, y);
    ReadIs(T, u, c.snap, y);
  }

  lemma SameKeySameEntry(T: set<Entry>, u: UserKey, s: nat, x: Entry, y: Entry)
    requires Unique(T) && Covers(T, u, s, x) && Covers(T, u, s, y)
    ensures x.key.sequence == y.key.sequence ==> x == y
  {
  }

  lemma DeletionIsDropped(c: Job, u: UserKey, e: Entry)
    requires Installs(c) && BaseLevel(c.v, c.level, u) && FromInput(c.in0, c.in1, e)
    requires e.key.user == u && e.key.kind.Deletion? && e.key.sequence <= c.snap
    ensures e in c.input && Drops(c, e) && Obsolete(c.v, c.level, c.snap, e)
  {
  }

  /** The compaction theorem: reads at and above the smallest snapshot are kept for every user key exactly when
      the compaction resurrects none. */
  lemma CompactionPreservesMeaning(c: Job)
    requires ValidVersion(c.v) && Installs(c)
    ensures ValidVersion(c.w)
    ensures (forall u, s :: s >= c.snap ==> ReadKept(c, u, s)) <==>
              (forall u :: !Resurrects(c.v, c.level, c.in0, c.in1, c.snap, u))
  {
    hide *;
    ReplaceIsValid(c);
    forall u, s: nat | s >= c.snap && !Resurrects(c.v, c.level, c.in0, c.in1, c.snap, u) ensures ReadKept(c, u, s) {
      KeepsRead(c, u, s);
    }
    forall u | Resurrects(c.v, c.level, c.in0, c.in1, c.snap, u) ensures !ReadKept(c, u, c.snap) {
      ResurrectionShows(c, u);
    }
  }

  /** One read at or above the smallest snapshot, exactly: it changes when the compaction resurrects the key and no
      entry above the smallest snapshot hides that. */
  lemma VersionRead(c: Job, u: UserKey, s: nat)
    requires ValidVersion(c.v) && Installs(c) && s >= c.snap
    ensures var hit := Resurrects(c.v, c.level, c.in0, c.in1, c.snap, u)
                       && !(exists x :: Covers(AllEntries(c.v), u, s, x) && x.key.sequence > c.snap);
            && (ReadKept(c, u, s) <==> !hit)
            && (hit ==> Read(AllEntries(c.v), u, s) == Deleted && Read(AllEntries(c.w), u, s).Found?)
  {
    hide *;
    var V, W := AllEntries(c.v), AllEntries(c.w);
    if !Resurrects(c.v, c.level, c.in0, c.in1, c.snap, u) {
      KeepsRead(c, u, s);
    } else if x :| Covers(V, u, s, x) && x.key.sequence > c.snap {
      RecentIsKept(c, u, s, x);
    } else {
      OnlyOldEntries(c);
      ResurrectionShows(c, u);
      NothingBetween(V, u, c.snap, s);
      SubsetCovers(W, V, u, s);
      NothingBetween(W, u, c.snap, s);
      ReadKeptIs(c, u, s);
    }
  }

  lemma ReadKeptIs(c: Job, u: UserKey, s: nat)
    ensures Read(AllEntries(c.v), u, s) == Deleted && Read(AllEntries(c.w), u, s).Found? ==> !ReadKept(c, u, s)
    ensures Read(AllEntries(c.v), u, s) == Read(AllEntries(c.w), u, s) ==> ReadKept(c, u, s)
  {
  }

  lemma SubsetCovers(T: set<Entry>, S: set<Entry>, u: UserKey, s: nat)
    requires T <= S
    ensures forall x :: Covers(T, u, s, x) ==> Covers(S, u, s, x)
  {
  }

  lemma NothingBetween(S: set<Entry>, u: UserKey, snap: nat, s: nat)
    requires snap <= s && Unique(S) && forall x :: Covers(S, u, s, x) ==> x.key.sequence <= snap
    ensures Read(S, u, s) == Read(S, u, snap)
  {
    hide Read;
    if x :| Covers(S, u, s, x) {
      var e := NewestExists(S, u, s, x);
      NewestAtSnapshot(S, u, s, snap, e);
      ReadIs(S, u, s, e);
      ReadIs(S, u, snap, e);
    } else {
      forall x ensures !Covers(S, u, snap, x) {
        assert !Covers(S, u, s, x);
      }
      ReadMissing(S, u, s);
      ReadMissing(S, u, snap);
    }
  }

  /** What is above the smallest snapshot is never dropped, so it is still the newest. */
  lemma RecentIsKept(c: Job, u: UserKey, s: nat, x: Entry)
    requires ValidVersion(c.v) && Installs(c)
    requires Covers(AllEntries(c.v), u, s, x) && x.key.sequence > c.snap
    ensures ReadKept(c, u, s)
  {
    hide ValidVersion, Installs, Unique, Drops, AllEntries, Read;
    OnlyOldEntries(c);
    var V, W := AllEntries(c.v), AllEntries(c.w);
    var e := NewestExists(V, u, s, x);
    EntriesAfter(c, e);
    DropsAreOld(c, e);
    assert Newest(W, u, s, e);
    ReadIs(V, u, s, e);
    ReadIs(W, u, s, e);
  }

  lemma DropsAreOld(c: Job, e: Entry)
    ensures Drops(c, e) ==> e.key.sequence <= c.snap
  {
  }

  /** If no level+1 file left out continues the user key on which the level+1 inputs end, nothing is resurrected. */
  lemma RightEdgeClosedIsSafe(v: Version, level: nat, in0: seq<FileMeta>, in1: seq<FileMeta>, snap: nat, u: UserKey)
    requires ValidVersion(v) && Selected(v, level, in0, in1)
    requires BoundaryClosed(v[level + 1], in1)
    ensures !Resurrects(v, level, in0, in1, snap, u)
  {
    forall e, g | FromInput(in0, in1, e) && OlderOmitted(v, level, in1, e, g) ensures false {
      EdgeHasNoOlder(v, level, in0, in1, e, g);
    }
  }

  lemma ValidOnLevel(v: Version, l: nat, f: FileMeta) returns (first: Entry)
    requires WellFormed(v) && l < |v| && f in v[l]
    ensures ValidFile(f) && first in f.entries && first.key == f.smallest
    ensures AtOrBefore(f.smallest, f.largest)
  {
    assert ValidFile(f);
    first := f.entries[0];
    FileBounds(f, first);
  }

  lemma EdgeHasNoOlder(v: Version, level: nat, in0: seq<FileMeta>, in1: seq<FileMeta>, e: Entry, g: FileMeta)
    requires WellFormed(v) && Selected(v, level, in0, in1)
    requires BoundaryClosed(v[level + 1], in1)
    requires FromInput(in0, in1, e) && g in v[level + 1] && g !in in1
    ensures !OlderOmitted(v, level, in1, e, g)
  {
    hide WellFormed, Selected, ValidFile, BoundaryClosed, Ahead, Before;
    var l, f := HomeOfInput(v, level, in0, in1, e);
    var x := ValidOnLevel(v, level + 1, g);
    var _ := ValidOnLevel(v, l, f);
    if f in in0 && l == level {
      if x.key.user == e.key.user {
        SharedKeyIsTaken(v, level, in0, in1, f, e, g, x);
      }
    } else {
      var _, key := RangeKeys(in1);
      OmittedIsApart(v, level, in0, in1, g);
      FileBounds(f, e);
      EdgeStops(v, level, in0, in1, f, e, g, key);
    }
  }

  lemma EdgeStops(v: Version, level: nat, in0: seq<FileMeta>, in1: seq<FileMeta>, f: FileMeta, e: Entry, g: FileMeta,
                  key: InternalKey)
    requires level + 1 < |v| && BoundaryClosed(v[level + 1], in1) && IsLargestKey(in1, key)
    requires AllOf(in0 + in1, g, true) || AllOf(in0 + in1, g, false)
    requires f in in1 && g in v[level + 1]
    requires f.smallest == e.key || Ahead(f.smallest, e.key)
    requires f.largest == e.key || Ahead(e.key, f.largest)
    requires AtOrBefore(g.smallest, g.largest)
    ensures !OlderOmitted(v, level, in1, e, g)
  {
    var h :| h in in1 && h.largest == key;
    assert h in in0 + in1 && f in in0 + in1;
    assert !ContinuesAfter(g, key);
    assert AtOrBefore(f.largest, key);
  }
}
