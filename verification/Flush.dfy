/** Flushing a memtable into a version (`WriteLevel0Table`, db/db_impl.cc), and the edits of background steps. */
module Flush {
  import opened InternalKeys
  import opened MultiVersion
  import opened Levels
  import opened CompactionInputs
  import opened CompactionSafety

  // ----- version edits of the three background steps -----

  lemma DisjointIsSorted(fs: seq<FileMeta>)
    requires ValidFiles(fs) && Disjoint(fs)
    ensures SortedBySmallest(fs)
  {
    forall i, j | 0 <= i < j < |fs| ensures BySmallest(fs[i], fs[j]) {
      InOrder(fs, i, j);
    }
  }

  lemma LevelsAreSorted(v: Version)
    requires WellFormed(v)
    ensures forall l :: 0 <= l < NUM_LEVELS ==> SortedBySmallest(v[l])
  {
    forall l | 1 <= l < NUM_LEVELS ensures SortedBySmallest(v[l]) {
      DisjointIsSorted(v[l]);
    }
  }

  /** A table built from the immutable memtable goes to level `l`. */
  ghost predicate AddsFile(v: Version, l: nat, f: FileMeta, w: Version) {
    && |w| == |v| == NUM_LEVELS && l < NUM_LEVELS
    && (forall k :: 0 <= k < NUM_LEVELS && k != l ==> w[k] == v[k])
    && SortedBySmallest(w[l])
    && forall g :: g in w[l] <==> g in v[l] || g == f
  }

  /** The file is newer than the version, and sits below level 0 only if nothing on its level or above overlaps it. */
  ghost predicate Flushable(v: Version, l: nat, f: FileMeta) {
    && |v| == NUM_LEVELS && l < NUM_LEVELS && ValidFile(f)
    && (forall k, g :: 0 <= k < NUM_LEVELS && g in v[k] ==> g.number < f.number)
    && NewerThan(EntrySet(f.entries), AllEntries(v))
    && (l > 0 ==> forall k :: 0 <= k <= l ==> !SomeOverlap(v, k, f.smallest.user, f.largest.user))
  }

  lemma FlushKeepsLevels(v: Version, l: nat, f: FileMeta, w: Version)
    requires WellFormed(v) && Flushable(v, l, f) && AddsFile(v, l, f, w)
    ensures WellFormed(w)
  {
    hide SortedBySmallest, Disjoint, ValidFile;
    if l > 0 {
      forall g, h | g in w[l] && h in w[l] && g != h ensures Separated(g, h) {
        if g in v[l] && h in v[l] {
          DisjointIsSeparated(v[l], g, h);
        } else {
          assert !SomeOverlap(v, l, f.smallest.user, f.largest.user);
        }
      }
      SeparatedIsDisjoint(w[l]);
    }
  }

  lemma FlushKeepsLayers(v: Version, l: nat, f: FileMeta, w: Version)
    requires ValidVersion(v) && Flushable(v, l, f) && AddsFile(v, l, f, w)
    ensures Layered(w)
  {
    forall m, g, a, n, h, b | OnLevel(w, m, g, a) && OnLevel(w, n, h, b) && Shallower(m, g, n, h)
      && a.key.user == b.key.user
      ensures a.key.sequence > b.key.sequence
    {
      FlushedIsNewer(v, l, f, w, m, g, a, n, h, b);
    }
  }

  lemma FlushedIsNewer(v: Version, l: nat, f: FileMeta, w: Version, m: int, g: FileMeta, a: Entry, n: int, h: FileMeta,
                       b: Entry)
    requires ValidVersion(v) && Flushable(v, l, f) && AddsFile(v, l, f, w)
    requires OnLevel(w, m, g, a) && OnLevel(w, n, h, b) && Shallower(m, g, n, h) && a.key.user == b.key.user
    ensures a.key.sequence > b.key.sequence
  {
    hide WellFormed, DistinctNumbers, AllEntries, ValidFile;
    var gNew, hNew := m == l && g == f, n == l && h == f;
    if gNew && !hNew {
      Located(v, n, h, b);
    } else if hNew && !gNew {
      assert l > 0 ==> !SomeOverlap(v, m, f.smallest.user, f.largest.user);
      FileOfWellFormed(v, m, g);
      FileBounds(g, a);
      FileBounds(f, b);
    }
  }

  lemma FileOfWellFormed(v: Version, m: int, g: FileMeta)
    requires WellFormed(v) && 0 <= m < |v| && g in v[m]
    ensures ValidFile(g)
  {
  }

  lemma FlushKeepsNumbering(v: Version, l: nat, f: FileMeta, w: Version)
    requires DistinctNumbers(v) && Flushable(v, l, f) && AddsFile(v, l, f, w)
    ensures DistinctNumbers(w)
  {
    hide SortedBySmallest, SomeOverlap, ValidFile, NewerThan;
  }

  lemma FlushKeepsEntries(v: Version, l: nat, f: FileMeta, w: Version)
    requires AddsFile(v, l, f, w)
    ensures AllEntries(w) == AllEntries(v) + EntrySet(f.entries)
  {
    hide AllEntries, SortedBySmallest;
    forall e ensures e in AllEntries(w) <==> e in AllEntries(v) || e in EntrySet(f.entries) {
      if e in AllEntries(w) {
        var m, g := Locate(w, e);
        if g in v[m] {
          Located(v, m, g, e);
        }
      }
      if e in AllEntries(v) {
        var m, g := Locate(v, e);
        Located(w, m, g, e);
      }
      if e in EntrySet(f.entries) {
        Located(w, l, f, e);
      }
    }
  }

  /** Flushing keeps both order invariants and moves the entries unchanged. */
  lemma FlushKeepsValid(v: Version, l: nat, f: FileMeta, w: Version)
    requires ValidVersion(v) && Flushable(v, l, f) && AddsFile(v, l, f, w)
    ensures ValidVersion(w)
    ensures AllEntries(w) == AllEntries(v) + EntrySet(f.entries)
  {
    hide WellFormed, Layered, DistinctNumbers, Flushable, AddsFile;
    FlushKeepsLevels(v, l, f, w);
    FlushKeepsLayers(v, l, f, w);
    FlushKeepsNumbering(v, l, f, w);
    FlushKeepsEntries(v, l, f, w);
  }
}
