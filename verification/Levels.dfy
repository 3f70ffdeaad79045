/** A version: seven levels of table files (db/version_set.h, db/version_edit.h). */
module Levels {
  import opened InternalKeys
  import opened MultiVersion

  const NUM_LEVELS := 7
  const MAX_MEM_COMPACT_LEVEL := 2

  /** `FileMetaData` together with the entries of the table file it names. */
  datatype FileMeta = FileMeta(number: nat, size: nat, smallest: InternalKey, largest: InternalKey, entries: seq<Entry>)

  type Version = seq<seq<FileMeta>>

  ghost predicate ValidFile(f: FileMeta) {
    && |f.entries| > 0
    && SortedEntries(f.entries)
    && (forall e :: e in f.entries ==> e.key.sequence <= MAX_SEQUENCE)
    && f.smallest == f.entries[0].key
    && f.largest == f.entries[|f.entries| - 1].key
  }

  lemma FileBounds(f: FileMeta, e: Entry)
    requires ValidFile(f) && e in f.entries
    ensures f.smallest == e.key || Ahead(f.smallest, e.key)
    ensures f.largest == e.key || Ahead(e.key, f.largest)
    ensures f.smallest.user <= e.key.user <= f.largest.user
  {
  }

  /** `BySmallestKey`: smallest key first, ties broken by file number. */
  predicate BySmallest(f: FileMeta, g: FileMeta) {
    Before(f.smallest, g.smallest) || (f.smallest == g.smallest && f.number < g.number)
  }

  ghost predicate SortedBySmallest(fs: seq<FileMeta>) {
    forall i, j :: 0 <= i < j < |fs| ==> BySmallest(fs[i], fs[j])
  }

  /** (I1) for one level: each file ends strictly before the next begins. */
  ghost predicate Disjoint(fs: seq<FileMeta>) {
    forall i, j :: 0 <= i < j < |fs| ==> Ahead(fs[i].largest, fs[j].smallest)
  }

  ghost predicate ValidFiles(fs: seq<FileMeta>) {
    forall f :: f in fs ==> ValidFile(f)
  }

  ghost predicate OnLevel(v: Version, l: int, f: FileMeta, e: Entry) {
    0 <= l < |v| && f in v[l] && e in f.entries
  }

  /** The place (l, f) is searched before the place (m, g). */
  predicate Shallower(l: int, f: FileMeta, m: int, g: FileMeta) {
    l < m || (l == m == 0 && f.number > g.number)
  }

  /** (I2): for one user key, a shallower place holds only larger sequence numbers. */
  ghost predicate Layered(v: Version) {
    forall l, f, a, m, g, b ::
      OnLevel(v, l, f, a) && OnLevel(v, m, g, b) && Shallower(l, f, m, g) && a.key.user == b.key.user
      ==> a.key.sequence > b.key.sequence
  }

  ghost predicate DistinctNumbers(v: Version) {
    forall l, f, m, g :: 0 <= l < |v| && 0 <= m < |v| && f in v[l] && g in v[m] && f.number == g.number
      ==> l == m && f == g
  }

  /** Files are tables, level 0 is listed by smallest key, and the levels above are strictly ordered (I1). */
  ghost predicate WellFormed(v: Version) {
    && |v| == NUM_LEVELS
    && (forall l :: 0 <= l < |v| ==> ValidFiles(v[l]))
    && SortedBySmallest(v[0])
    && (forall l :: 1 <= l < |v| ==> Disjoint(v[l]))
  }

  ghost predicate ValidVersion(v: Version) {
    WellFormed(v) && DistinctNumbers(v) && Layered(v)
  }

  ghost function AllEntries(v: Version): set<Entry> {
    set l, f, e | 0 <= l < |v| && f in v[l] && e in f.entries :: e
  }

  lemma Locate(v: Version, e: Entry) returns (l: int, f: FileMeta)
    requires e in AllEntries(v)
    ensures OnLevel(v, l, f, e)
  {
    l, f :| 0 <= l < |v| && f in v[l] && e in f.entries;
  }

  lemma Located(v: Version, l: int, f: FileMeta, e: Entry)
    requires OnLevel(v, l, f, e)
    ensures e in AllEntries(v)
  {
  }

  /** An entry of a valid version has one home. */
  lemma OneHome(v: Version, l: int, f: FileMeta, a: Entry, m: int, g: FileMeta, b: Entry)
    requires ValidVersion(v)
    requires OnLevel(v, l, f, a) && OnLevel(v, m, g, b)
    requires a.key.user == b.key.user && a.key.sequence == b.key.sequence
    ensures l == m && f == g && a == b
  {
    hide ValidFiles, Disjoint, SortedBySmallest, ValidFile;
    assert !Shallower(l, f, m, g) && !Shallower(m, g, l, f);
    if l != 0 {
      OneHomeOnLevel(v[l], f, a, g, b);
    }
    OneEntry(v[l], f, a, b);
  }

  lemma OneEntry(fs: seq<FileMeta>, f: FileMeta, a: Entry, b: Entry)
    requires ValidFiles(fs) && f in fs && a in f.entries && b in f.entries
    requires a.key.user == b.key.user && a.key.sequence == b.key.sequence
    ensures a == b
  {
    var i :| 0 <= i < |f.entries| && f.entries[i] == a;
    var j :| 0 <= j < |f.entries| && f.entries[j] == b;
    assert ValidFile(f) && !(i < j) && !(j < i);
  }

  lemma OneHomeOnLevel(fs: seq<FileMeta>, f: FileMeta, a: Entry, g: FileMeta, b: Entry)
    requires ValidFiles(fs) && Disjoint(fs) && f in fs && g in fs && a in f.entries && b in g.entries
    requires a.key.user == b.key.user && a.key.sequence == b.key.sequence
    ensures f == g
  {
    FileBounds(f, a);
    FileBounds(g, b);
    hide ValidFile;
    var i :| 0 <= i < |fs| && fs[i] == f;
    var j :| 0 <= j < |fs| && fs[j] == g;
    assert i == j;
  }

  /** No two entries of a valid version share user key and sequence number. */
  lemma EntriesAreUnique(v: Version)
    requires ValidVersion(v)
    ensures Unique(AllEntries(v))
  {
    forall a, b | a in AllEntries(v) && b in AllEntries(v) && a.key.user == b.key.user
      && a.key.sequence == b.key.sequence
      ensures a == b
    {
      var l, f := Locate(v, a);
      var m, g := Locate(v, b);
      OneHome(v, l, f, a, m, g, b);
    }
  }
}
