/** Choosing files by key range (db/version_set.cc): overlap checks, the restarting level-0 search, boundary
    files, and the inputs of a compaction. */
module InputSelection {
  import opened InternalKeys
  import opened Levels
  import VersionGet

  /** A null bound is infinite. */
  datatype Bound = Unbounded | At(key: UserKey)

  predicate AfterFile(b: Bound, f: FileMeta) {
    b.At? && b.key > f.largest.user
  }

  predicate BeforeFile(b: Bound, f: FileMeta) {
    b.At? && b.key < f.smallest.user
  }

  predicate Overlaps(f: FileMeta, begin: Bound, end: Bound) {
    !AfterFile(begin, f) && !BeforeFile(end, f)
  }

  /** The user-key ranges of two files meet. */
  predicate Touches(f: FileMeta, g: FileMeta) {
    f.smallest.user <= g.largest.user && g.smallest.user <= f.largest.user
  }

  function Overlapping(fs: seq<FileMeta>, begin: Bound, end: Bound): (r: seq<FileMeta>)
    ensures forall f :: f in r <==> f in fs && Overlaps(f, begin, end)
  {
    if fs == [] then []
    else
      var rest := Overlapping(fs[..|fs| - 1], begin, end);
      if Overlaps(fs[|fs| - 1], begin, end) then rest + [fs[|fs| - 1]] else rest
  }

  ghost predicate NoDuplicates(fs: seq<FileMeta>) {
    forall i, j :: 0 <= i < j < |fs| ==> fs[i] != fs[j]
  }

  lemma {:induction false} OverlappingHasNoDuplicates(fs: seq<FileMeta>, begin: Bound, end: Bound)
    requires NoDuplicates(fs)
    ensures NoDuplicates(Overlapping(fs, begin, end))
  {
    if fs != [] {
      var rest, last := Overlapping(fs[..|fs| - 1], begin, end), fs[|fs| - 1];
      OverlappingHasNoDuplicates(fs[..|fs| - 1], begin, end);
      forall i | 0 <= i < |rest| ensures rest[i] != last {
        assert rest[i] in rest && rest[i] in fs[..|fs| - 1];
      }
    }
  }

  lemma OverlappingPrefix(fs: seq<FileMeta>, i: nat, begin: Bound, end: Bound)
    requires i < |fs|
    ensures Overlapping(fs[..i + 1], begin, end)
         == Overlapping(fs[..i], begin, end) + if Overlaps(fs[i], begin, end) then [fs[i]] else []
  {
    assert fs[..i + 1][..i] == fs[..i];
  }

  /** `SomeFileOverlapsRange`: scanning or, on disjoint files, one binary search. */
  method SomeFileOverlapsRange(disjoint: bool, files: seq<FileMeta>, smallest: Bound, largest: Bound) returns (r: bool)
    requires ValidFiles(files) && (disjoint ==> Disjoint(files))
    ensures r <==> exists f :: f in files && Overlaps(f, smallest, largest)
  {
    if !disjoint {
      for i := 0 to |files|
        invariant forall j :: 0 <= j < i ==> !Overlaps(files[j], smallest, largest)
      {
        if !AfterFile(smallest, files[i]) && !BeforeFile(largest, files[i]) {
          assert files[i] in files && Overlaps(files[i], smallest, largest);
          return true;
        }
      }
      return false;
    }
    var index := 0;
    if smallest.At? {
      index := VersionGet.FindFile(files, SeekKey(smallest.key, MAX_SEQUENCE));
      forall i | 0 <= i < |files| ensures i < index <==> AfterFile(smallest, files[i]) {
        assert ValidFile(files[i]);
        SeekKeySplits(smallest.key, MAX_SEQUENCE, files[i].largest);
        BeforeIsStrictTotalOrder(files[i].largest, SeekKey(smallest.key, MAX_SEQUENCE), files[i].largest);
      }
    }
    if index >= |files| {
      return false;
    }
    r := !BeforeFile(largest, files[index]);
    assert r ==> Overlaps(files[index], smallest, largest);
    forall i | 0 <= i < |files| ensures Overlaps(files[i], smallest, largest) ==> r {
      if index < i {
        assert ValidFile(files[index]);
        FileBounds(files[index], files[index].entries[0]);
      }
    }
  }

  /** Every file of `fs` that meets a file of `C` is in `C`. */
  ghost predicate Closed(fs: seq<FileMeta>, C: set<FileMeta>) {
    forall f, g :: f in fs && g in fs && g in C && Touches(f, g) ==> f in C
  }

  ghost predicate ContainsOverlapping(fs: seq<FileMeta>, begin: Bound, end: Bound, C: set<FileMeta>) {
    forall f :: f in fs && Overlaps(f, begin, end) ==> f in C
  }

  ghost function Members(fs: seq<FileMeta>): set<FileMeta> {
    set f | f in fs
  }

  ghost function StartingBefore(fs: seq<FileMeta>, lo: Bound): set<FileMeta> {
    set f | f in fs && BeforeLimit(f, lo)
  }

  ghost function EndingAfter(fs: seq<FileMeta>, hi: Bound): set<FileMeta> {
    set f | f in fs && AfterLimit(f, hi)
  }

  /** `GetOverlappingInputs`.  Above level 0 this is a plain filter.  On level 0 the range grows until the
      result is closed under overlap; it is then the least closed set. */
  method GetOverlappingInputs(files: seq<FileMeta>, level: nat, begin: Bound, end: Bound)
      returns (inputs: seq<FileMeta>)
    requires ValidFiles(files)
    ensures level > 0 ==> inputs == Overlapping(files, begin, end)
    ensures forall f :: f in inputs ==> f in files
    ensures ContainsOverlapping(files, begin, end, Members(inputs))
    ensures level == 0 ==> Closed(files, Members(inputs))
    ensures NoDuplicates(files) ==> NoDuplicates(inputs)
    ensures level == 0 && begin.At? && end.At? && begin.key <= end.key ==>
              forall C :: Closed(files, C) && ContainsOverlapping(files, begin, end, C) ==> Members(inputs) <= C
  {
    hide Closed, ContainsOverlapping, Least, NoDuplicates, Overlapping;
    LeastAtStart(files, begin, end);
    inputs := [];
    assert Overlapping(files[..0], begin, end) == [] by { OverlappingNothing(begin, end); }
    var lo, hi := begin, end;
    var i := 0;
    while i < |files|
      invariant 0 <= i <= |files|
      invariant inputs == Overlapping(files[..i], lo, hi)
      invariant level > 0 ==> lo == begin && hi == end
      invariant level == 0 ==> forall f :: f in inputs ==> !BeforeLimit(f, lo) && !AfterLimit(f, hi)
      invariant lo.At? <==> begin.At?
      invariant hi.At? <==> end.At?
      invariant lo == begin || (lo.At? && begin.At? && lo.key <= begin.key)
      invariant hi == end || (hi.At? && end.At? && end.key <= hi.key)
      invariant Least(files, begin, end, lo, hi)
      decreases StartingBefore(files, lo), EndingAfter(files, hi), |files| - i
    {
      var f := files[i];
      OverlappingPrefix(files, i, lo, hi);
      i := i + 1;
      if AfterFile(lo, f) || BeforeFile(hi, f) {
        // f is outside the range
      } else {
        inputs := inputs + [f];
        if level == 0 {
          assert ValidFile(f);
          FileBounds(f, f.entries[0]);
          if lo.At? && f.smallest.user < lo.key {
            GrowthStaysLeast(files, begin, end, lo, hi, At(f.smallest.user), hi, f);
            assert f in StartingBefore(files, lo) && f !in StartingBefore(files, At(f.smallest.user));
            lo := At(f.smallest.user);
            OverlappingNothing(lo, hi);
            inputs := [];
            i := 0;
          } else if hi.At? && f.largest.user > hi.key {
            GrowthStaysLeast(files, begin, end, lo, hi, lo, At(f.largest.user), f);
            assert f in EndingAfter(files, hi) && f !in EndingAfter(files, At(f.largest.user));
            hi := At(f.largest.user);
            OverlappingNothing(lo, hi);
            inputs := [];
            i := 0;
          }
        }
      }
    }
    assert files[..|files|] == files;
    Finished(files, level, begin, end, lo, hi, inputs);
  }

  lemma OverlappingNothing(begin: Bound, end: Bound)
    ensures forall fs: seq<FileMeta> :: Overlapping(fs[..0], begin, end) == []
  {
  }

  lemma LeastAtStart(files: seq<FileMeta>, begin: Bound, end: Bound)
    ensures Least(files, begin, end, begin, end)
  {
  }

  /** What the final range says about the files found. */
  lemma Finished(files: seq<FileMeta>, level: nat, begin: Bound, end: Bound, lo: Bound, hi: Bound,
                 inputs: seq<FileMeta>)
    requires ValidFiles(files) && inputs == Overlapping(files, lo, hi) && Least(files, begin, end, lo, hi)
    requires lo == begin || (lo.At? && begin.At? && lo.key <= begin.key)
    requires hi == end || (hi.At? && end.At? && end.key <= hi.key)
    requires level == 0 ==> forall f :: f in inputs ==> !BeforeLimit(f, lo) && !AfterLimit(f, hi)
    ensures ContainsOverlapping(files, begin, end, Members(inputs))
    ensures level == 0 ==> Closed(files, Members(inputs))
    ensures NoDuplicates(files) ==> NoDuplicates(inputs)
    ensures begin.At? && end.At? && begin.key <= end.key ==>
              forall C :: Closed(files, C) && ContainsOverlapping(files, begin, end, C) ==> Members(inputs) <= C
  {
    if NoDuplicates(files) {
      OverlappingHasNoDuplicates(files, lo, hi);
    }
  }

  predicate BeforeLimit(f: FileMeta, lo: Bound) {
    lo.At? && f.smallest.user < lo.key
  }

  predicate AfterLimit(f: FileMeta, hi: Bound) {
    hi.At? && f.largest.user > hi.key
  }

  /** Any closed set holding the files that overlap the requested range holds those overlapping the grown range. */
  ghost predicate Least(files: seq<FileMeta>, begin: Bound, end: Bound, lo: Bound, hi: Bound) {
    begin.At? && end.At? && begin.key <= end.key ==>
      && lo.At? && hi.At? && lo.key <= begin.key && end.key <= hi.key
      && forall C :: Closed(files, C) && ContainsOverlapping(files, begin, end, C) ==>
            ContainsOverlapping(files, lo, hi, C)
  }

  /** Growing the range to the edge of a file already selected brings in only files that any closed set has. */
  lemma GrowthStaysLeast(files: seq<FileMeta>, begin: Bound, end: Bound, lo: Bound, hi: Bound, lo': Bound, hi': Bound,
                         f: FileMeta)
    requires Least(files, begin, end, lo, hi)
    requires ValidFiles(files) && f in files && Overlaps(f, lo, hi)
    requires lo' == lo || hi' == hi
    requires lo' == lo || (lo' == At(f.smallest.user) && lo.At? && f.smallest.user < lo.key)
    requires hi' == hi || (hi' == At(f.largest.user) && hi.At? && f.largest.user > hi.key)
    ensures Least(files, begin, end, lo', hi')
  {
    if begin.At? && end.At? && begin.key <= end.key {
      FileBounds(f, f.entries[0]);
      forall C | Closed(files, C) && ContainsOverlapping(files, begin, end, C)
        ensures ContainsOverlapping(files, lo', hi', C)
      {
        forall g | g in files && Overlaps(g, lo', hi') ensures g in C {
          if !Overlaps(g, lo, hi) {
            FileBounds(g, g.entries[0]);
            assert f in C && Touches(g, f);
          }
        }
      }
    }
  }
}
