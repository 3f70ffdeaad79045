/** Applying version edits (`VersionSet::Builder` and the replay in `Recover`, db/version_set.cc). */
module VersionBuilder {
  import opened Common
  import opened InternalKeys
  import opened Levels

  /** The fields of `VersionEdit` that may be set or not. */
  datatype Header = Header(comparator: Option<string>, logNumber: Option<nat>, prevLogNumber: Option<nat>,
                           nextFileNumber: Option<nat>, lastSequence: Option<nat>)

  const NO_HEADER := Header(None, None, None, None, None)

  /** `VersionEdit`: (level, number) pairs deleted, (level, file) pairs added, (level, key) compaction pointers. */
  datatype VersionEdit = VersionEdit(deletedFiles: seq<(nat, nat)>, newFiles: seq<(nat, FileMeta)>,
                                     compactPointers: seq<(nat, InternalKey)>, header: Header)

  /** An edit of files only. */
  function FileEdit(deletedFiles: seq<(nat, nat)>, newFiles: seq<(nat, FileMeta)>): VersionEdit {
    VersionEdit(deletedFiles, newFiles, [], NO_HEADER)
  }

  ghost predicate ValidEdit(edit: VersionEdit) {
    && (forall d :: d in edit.deletedFiles ==> d.0 < NUM_LEVELS)
    && (forall n :: n in edit.newFiles ==> n.0 < NUM_LEVELS)
  }

  /** Same place in the order of `BySmallestKey`. */
  predicate SamePlace(f: FileMeta, g: FileMeta) {
    f.smallest == g.smallest && f.number == g.number
  }

  lemma BySmallestIsTotal(f: FileMeta, g: FileMeta, h: FileMeta)
    ensures BySmallest(f, g) || SamePlace(f, g) || BySmallest(g, f)
    ensures !(BySmallest(f, g) && BySmallest(g, f)) && !BySmallest(f, f)
    ensures BySmallest(f, g) && BySmallest(g, h) ==> BySmallest(f, h)
  {
    BeforeIsStrictTotalOrder(f.smallest, g.smallest, h.smallest);
  }

  /** Lists sorted by smallest key are determined by their members. */
  lemma {:induction false} SortedIsUnique(a: seq<FileMeta>, b: seq<FileMeta>)
    requires SortedBySmallest(a) && SortedBySmallest(b)
    requires forall f :: f in a <==> f in b
    ensures a == b
  {
    assert b != [] ==> b[0] in b;
    if a != [] {
      assert a[0] in a;
      LeastIsFirst(a, b);
      forall f ensures f in a[1..] <==> f in b[1..] {
        InTail(a, f);
        InTail(b, f);
      }
      SortedIsUnique(a[1..], b[1..]);
      assert a == [a[0]] + a[1..] && b == [b[0]] + b[1..];
    }
  }

  lemma LeastIsFirst(a: seq<FileMeta>, b: seq<FileMeta>)
    requires SortedBySmallest(a) && SortedBySmallest(b) && a != [] && b != [] && a[0] in b && b[0] in a
    ensures a[0] == b[0]
  {
    BySmallestIsTotal(a[0], b[0], a[0]);
  }

  lemma InTail(a: seq<FileMeta>, f: FileMeta)
    requires SortedBySmallest(a) && a != []
    ensures f in a[1..] <==> f in a && f != a[0]
  {
    BySmallestIsTotal(a[0], a[0], a[0]);
    forall i | 1 <= i < |a| ensures a[i] != a[0] {
      assert BySmallest(a[0], a[i]);
    }
    assert a == [a[0]] + a[1..];
  }

  /** The level of a saved version: base and added files that are not deleted. */
  ghost predicate IsSaved(base: seq<FileMeta>, added: seq<FileMeta>, deleted: set<nat>, saved: seq<FileMeta>) {
    && SortedBySmallest(saved)
    && forall f :: f in saved <==> (f in base || f in added) && f.number !in deleted
  }

  /** No file of the two lists falls on the same place. */
  ghost predicate Apart(base: seq<FileMeta>, added: seq<FileMeta>) {
    forall f, g :: f in base && g in added ==> !SamePlace(f, g)
  }

  class Builder {
    const base: Version
    var deletedFiles: seq<set<nat>>
    var addedFiles: seq<seq<FileMeta>>

    ghost predicate Valid()
      reads this
    {
      && |base| == |deletedFiles| == |addedFiles| == NUM_LEVELS
      && forall l :: 0 <= l < NUM_LEVELS ==> SortedBySmallest(addedFiles[l])
    }

    constructor (base: Version)
      requires |base| == NUM_LEVELS
      ensures Valid() && this.base == base
      ensures forall l :: 0 <= l < NUM_LEVELS ==> deletedFiles[l] == {} && addedFiles[l] == []
    {
      this.base := base;
      deletedFiles := seq(NUM_LEVELS, _ => {});
      addedFiles := seq(NUM_LEVELS, _ => []);
    }

    /** `std::set::insert` into the added files of a level. */
    method InsertAdded(level: nat, f: FileMeta)
      requires Valid() && level < NUM_LEVELS
      modifies this`addedFiles
      ensures Valid()
      ensures forall l :: 0 <= l < NUM_LEVELS && l != level ==> addedFiles[l] == old(addedFiles[l])
      ensures forall g :: g in addedFiles[level] <==>
                g in old(addedFiles[level]) || (g == f && forall h :: h in old(addedFiles[level]) ==> !SamePlace(h, f))
    {
      var added := addedFiles[level];
      var k := 0;
      while k < |added| && BySmallest(added[k], f)
        invariant k <= |added|
        invariant forall i :: 0 <= i < k ==> BySmallest(added[i], f)
      {
        k := k + 1;
      }
      if k < |added| && SamePlace(added[k], f) {
        return;
      }
      var next := added[..k] + [f] + added[k..];
      forall i | k <= i < |added| ensures BySmallest(f, added[i]) && !SamePlace(added[i], f) {
        BySmallestIsTotal(added[k], f, f);
        BySmallestIsTotal(f, added[k], added[i]);
        BySmallestIsTotal(f, added[i], f);
      }
      forall i | 0 <= i < k ensures !SamePlace(added[i], f) {
        BySmallestIsTotal(added[i], f, f);
      }
      forall i, j | 0 <= i < j < |next| ensures BySmallest(next[i], next[j]) {
        BySmallestIsTotal(next[i], f, next[j]);
      }
      forall g ensures g in next <==> g in added || g == f {
        assert added == added[..k] + added[k..];
      }
      addedFiles := addedFiles[level := next];
    }

    /** `Apply`: a file both deleted and added by one edit is added. */
    method Apply(edit: VersionEdit)
      requires Valid() && ValidEdit(edit)
      modifies this
      ensures Valid()
      ensures forall l :: 0 <= l < NUM_LEVELS ==>
                deletedFiles[l] == (old(deletedFiles[l]) + DeletedAt(edit, l)) - NumbersOf(AddedAt(edit, l))
      ensures forall l :: 0 <= l < NUM_LEVELS && Enters(old(addedFiles[l]), edit, l) ==>
                forall g :: g in addedFiles[l] <==> g in old(addedFiles[l]) || g in AddedAt(edit, l)
    {
      DeleteFiles(edit);
      AddFiles(edit);
    }

    method DeleteFiles(edit: VersionEdit)
      requires Valid() && ValidEdit(edit)
      modifies this`deletedFiles
      ensures Valid()
      ensures forall l :: 0 <= l < NUM_LEVELS ==> deletedFiles[l] == old(deletedFiles[l]) + DeletedAt(edit, l)
    {
      hide DeletedAt, SortedBySmallest;
      DeleteNone(edit);
      for i := 0 to |edit.deletedFiles|
        invariant Valid()
        invariant forall l :: 0 <= l < NUM_LEVELS ==>
                  deletedFiles[l] == old(deletedFiles[l]) + DeletedAt(FirstDeleted(edit, i), l)
      {
        var d := edit.deletedFiles[i];
        deletedFiles := deletedFiles[d.0 := deletedFiles[d.0] + {d.1}];
        DeleteStep(edit, i);
      }
      assert FirstDeleted(edit, |edit.deletedFiles|) == edit;
    }

    method AddFiles(edit: VersionEdit)
      requires Valid() && ValidEdit(edit)
      modifies this
      ensures Valid()
      ensures forall l :: 0 <= l < NUM_LEVELS ==> deletedFiles[l] == old(deletedFiles[l]) - NumbersOf(AddedAt(edit, l))
      ensures forall l :: 0 <= l < NUM_LEVELS && Enters(old(addedFiles[l]), edit, l) ==>
                forall g :: g in addedFiles[l] <==> g in old(addedFiles[l]) || g in AddedAt(edit, l)
    {
      hide AddedAt, NumbersOf, Enters, SortedBySmallest, SamePlace;
      AddNone(edit);
      for i := 0 to |edit.newFiles|
        invariant Valid()
        invariant forall l :: 0 <= l < NUM_LEVELS ==>
                  deletedFiles[l] == old(deletedFiles[l]) - NumbersOf(AddedAt(FirstAdded(edit, i), l))
        invariant forall l :: 0 <= l < NUM_LEVELS && Enters(old(addedFiles[l]), edit, l) ==>
                    forall g :: g in addedFiles[l] <==> g in old(addedFiles[l]) || g in AddedAt(FirstAdded(edit, i), l)
      {
        var n := edit.newFiles[i];
        AddStep(edit, i);
        EntersOnce(old(addedFiles[n.0]), edit, i);
        deletedFiles := deletedFiles[n.0 := deletedFiles[n.0] - {n.1.number}];
        InsertAdded(n.0, n.1);
      }
      assert FirstAdded(edit, |edit.newFiles|) == edit;
    }

    /** `SaveTo`, level by level. */
    method SaveTo() returns (v: Version)
      requires Valid()
      requires forall l :: 0 <= l < NUM_LEVELS ==> SortedBySmallest(base[l]) && Apart(base[l], addedFiles[l])
      ensures |v| == NUM_LEVELS
      ensures forall l :: 0 <= l < NUM_LEVELS ==> IsSaved(base[l], addedFiles[l], deletedFiles[l], v[l])
    {
      v := [];
      for l := 0 to NUM_LEVELS
        invariant |v| == l
        invariant forall k :: 0 <= k < l ==> IsSaved(base[k], addedFiles[k], deletedFiles[k], v[k])
      {
        var saved := SaveLevel(base[l], addedFiles[l], deletedFiles[l]);
        v := v + [saved];
      }
    }
  }

  /** One level of `SaveTo`: merge the base list with the added files and leave out deleted numbers. */
  method SaveLevel(base: seq<FileMeta>, added: seq<FileMeta>, deleted: set<nat>) returns (saved: seq<FileMeta>)
    requires SortedBySmallest(base) && SortedBySmallest(added) && Apart(base, added)
    ensures IsSaved(base, added, deleted, saved)
  {
    saved := [];
    var b := 0;
    for a := 0 to |added|
      invariant b <= |base| && Progress(base, added, deleted, b, a, saved)
    {
      while b < |base| && !BySmallest(added[a], base[b])
        invariant b <= |base| && Progress(base, added, deleted, b, a, saved)
      {
        TakeBase(base, added, deleted, b, a, saved);
        if base[b].number !in deleted {
          saved := saved + [base[b]];
        }
        b := b + 1;
      }
      TakeAdded(base, added, deleted, b, a, saved);
      if added[a].number !in deleted {
        saved := saved + [added[a]];
      }
    }
    while b < |base|
      invariant b <= |base| && Progress(base, added, deleted, b, |added|, saved)
    {
      TakeBase(base, added, deleted, b, |added|, saved);
      if base[b].number !in deleted {
        saved := saved + [base[b]];
      }
      b := b + 1;
    }
    assert base[..|base|] == base && added[..|added|] == added;
  }

  /** After `b` base files and `a` added files: the result so far, and everything to come sorts after it. */
  ghost predicate Progress(base: seq<FileMeta>, added: seq<FileMeta>, deleted: set<nat>, b: nat, a: nat,
                           saved: seq<FileMeta>)
  {
    && b <= |base| && a <= |added|
    && IsSaved(base[..b], added[..a], deleted, saved)
    && (forall f, j :: f in saved && b <= j < |base| ==> BySmallest(f, base[j]))
    && (forall f, j :: f in saved && a <= j < |added| ==> BySmallest(f, added[j]))
  }

  lemma TakeBase(base: seq<FileMeta>, added: seq<FileMeta>, deleted: set<nat>, b: nat, a: nat, saved: seq<FileMeta>)
    requires SortedBySmallest(base) && SortedBySmallest(added) && Apart(base, added)
    requires Progress(base, added, deleted, b, a, saved) && b < |base|
    requires (a < |added| ==> !BySmallest(added[a], base[b]))
    ensures Progress(base, added, deleted, b + 1, a, saved + if base[b].number in deleted then [] else [base[b]])
  {
    forall j | a <= j < |added| ensures BySmallest(base[b], added[j]) {
      assert base[b] in base && added[a] in added;
      BySmallestIsTotal(base[b], added[a], added[j]);
    }
    assert base[..b + 1] == base[..b] + [base[b]];
  }

  lemma TakeAdded(base: seq<FileMeta>, added: seq<FileMeta>, deleted: set<nat>, b: nat, a: nat, saved: seq<FileMeta>)
    requires SortedBySmallest(base) && SortedBySmallest(added) && Apart(base, added)
    requires Progress(base, added, deleted, b, a, saved) && a < |added|
    requires (b < |base| ==> BySmallest(added[a], base[b]))
    ensures Progress(base, added, deleted, b, a + 1, saved + if added[a].number in deleted then [] else [added[a]])
  {
    forall j | b <= j < |base| ensures BySmallest(added[a], base[j]) {
      BySmallestIsTotal(added[a], base[b], base[j]);
    }
    assert added[..a + 1] == added[..a] + [added[a]];
  }

  // ----- edits as sets -----

  ghost function DeletedAt(edit: VersionEdit, l: nat): set<nat> {
    set d | d in edit.deletedFiles && d.0 == l :: d.1
  }

  ghost function AddedAt(edit: VersionEdit, l: nat): set<FileMeta> {
    set n | n in edit.newFiles && n.0 == l :: n.1
  }

  ghost function NumbersOf(fs: set<FileMeta>): set<nat> {
    set f | f in fs :: f.number
  }

  ghost function FirstDeleted(edit: VersionEdit, i: nat): VersionEdit
    requires i <= |edit.deletedFiles|
  {
    edit.(deletedFiles := edit.deletedFiles[..i])
  }

  ghost function FirstAdded(edit: VersionEdit, i: nat): VersionEdit
    requires i <= |edit.newFiles|
  {
    edit.(newFiles := edit.newFiles[..i])
  }

  /** Every file of the edit enters the level under a number that was not added there before. */
  ghost predicate Enters(added: seq<FileMeta>, edit: VersionEdit, l: nat) {
    && (forall i, f :: 0 <= i < |edit.newFiles| && edit.newFiles[i].0 == l && f in added ==>
        f.number != edit.newFiles[i].1.number)
    && (forall i, j :: 0 <= i < j < |edit.newFiles| && edit.newFiles[i].0 == l == edit.newFiles[j].0 ==>
          edit.newFiles[i].1.number != edit.newFiles[j].1.number)
  }

  lemma DeleteNone(edit: VersionEdit)
    ensures forall l :: DeletedAt(FirstDeleted(edit, 0), l) == {}
  {
  }

  lemma AddNone(edit: VersionEdit)
    ensures forall l :: AddedAt(FirstAdded(edit, 0), l) == {} && NumbersOf(AddedAt(FirstAdded(edit, 0), l)) == {}
  {
  }

  lemma DeleteStep(edit: VersionEdit, i: nat)
    requires i < |edit.deletedFiles|
    ensures forall l :: DeletedAt(FirstDeleted(edit, i + 1), l)
                     == DeletedAt(FirstDeleted(edit, i), l) + if edit.deletedFiles[i].0 == l
                         then {edit.deletedFiles[i].1} else {}
  {
    assert edit.deletedFiles[..i + 1] == edit.deletedFiles[..i] + [edit.deletedFiles[i]];
    forall l ensures DeletedAt(FirstDeleted(edit, i + 1), l)
                  == DeletedAt(FirstDeleted(edit, i), l) + if edit.deletedFiles[i].0 == l then {edit.deletedFiles[i].1}
                      else {}
    {
      forall x ensures x in DeletedAt(FirstDeleted(edit, i + 1), l) <==>
                       x in DeletedAt(FirstDeleted(edit, i), l) || (edit.deletedFiles[i] == (l, x))
      {
        assert (l, x) in edit.deletedFiles[..i + 1] <==>
            (l, x) in edit.deletedFiles[..i] || (l, x) == edit.deletedFiles[i];
      }
    }
  }

  lemma AddStep(edit: VersionEdit, i: nat)
    requires i < |edit.newFiles|
    ensures forall l :: AddedAt(FirstAdded(edit, i + 1), l)
                     == AddedAt(FirstAdded(edit, i), l) + if edit.newFiles[i].0 == l then {edit.newFiles[i].1} else {}
    ensures forall l :: NumbersOf(AddedAt(FirstAdded(edit, i + 1), l))
                     == NumbersOf(AddedAt(FirstAdded(edit, i), l)) + if edit.newFiles[i].0 == l
                         then {edit.newFiles[i].1.number} else {}
  {
    assert edit.newFiles[..i + 1] == edit.newFiles[..i] + [edit.newFiles[i]];
    forall l ensures AddedAt(FirstAdded(edit, i + 1), l)
                  == AddedAt(FirstAdded(edit, i), l) + if edit.newFiles[i].0 == l then {edit.newFiles[i].1} else {}
    {
      forall x ensures x in AddedAt(FirstAdded(edit, i + 1), l) <==>
                       x in AddedAt(FirstAdded(edit, i), l) || (edit.newFiles[i] == (l, x))
      {
        assert (l, x) in edit.newFiles[..i + 1] <==> (l, x) in edit.newFiles[..i] || (l, x) == edit.newFiles[i];
      }
    }
  }

  lemma EntersOnce(added: seq<FileMeta>, edit: VersionEdit, i: nat)
    requires i < |edit.newFiles|
    ensures Enters(added, edit, edit.newFiles[i].0) ==>
              forall f :: f in added || f in AddedAt(FirstAdded(edit, i), edit.newFiles[i].0) ==>
                !SamePlace(f, edit.newFiles[i].1)
  {
    var l := edit.newFiles[i].0;
    forall f | f in AddedAt(FirstAdded(edit, i), l) && Enters(added, edit, l)
      ensures f.number != edit.newFiles[i].1.number
    {
      assert (l, f) in edit.newFiles[..i];
      var j :| 0 <= j < i && edit.newFiles[j] == (l, f);
    }
  }

  /** One level after one edit. */
  ghost predicate IsEditedLevel(base: seq<FileMeta>, added: set<FileMeta>, deleted: set<nat>, saved: seq<FileMeta>) {
    && SortedBySmallest(saved)
    && forall f :: f in saved <==> (f in base || f in added) && (f.number !in deleted || f.number in NumbersOf(added))
  }

  /** The edit brings only new numbers to sorted levels. */
  ghost predicate CanApply(v: Version, edit: VersionEdit) {
    && |v| == NUM_LEVELS && ValidEdit(edit)
    && (forall l :: 0 <= l < NUM_LEVELS ==> SortedBySmallest(v[l]) && Enters([], edit, l))
    && (forall l, f, g :: 0 <= l < NUM_LEVELS && f in v[l] && g in AddedAt(edit, l) ==> f.number != g.number)
  }

  ghost predicate IsEdited(v: Version, edit: VersionEdit, w: Version) {
    && |v| == |w| == NUM_LEVELS
    && forall l :: 0 <= l < NUM_LEVELS ==> IsEditedLevel(v[l], AddedAt(edit, l), DeletedAt(edit, l), w[l])
  }

  /** `LogAndApply`: one edit on top of one version. */
  method LogAndApply(v: Version, edit: VersionEdit) returns (w: Version)
    requires CanApply(v, edit)
    ensures IsEdited(v, edit, w)
  {
    hide AddedAt, DeletedAt, NumbersOf, SortedBySmallest, Enters;
    var builder := new Builder(v);
    builder.Apply(edit);
    w := builder.SaveTo();
  }

  // ----- replaying a manifest -----

  /** Files that the first `k` edits add to level `l`. */
  ghost function AddedBy(edits: seq<VersionEdit>, k: nat, l: nat): set<FileMeta>
    requires k <= |edits|
  {
    if k == 0 then {} else AddedBy(edits, k - 1, l) + AddedAt(edits[k - 1], l)
  }

  /** Numbers that are deleted from level `l` after the first `k` edits. */
  ghost function DeletedBy(edits: seq<VersionEdit>, k: nat, l: nat): set<nat>
    requires k <= |edits|
  {
    if k == 0 then {}
    else (DeletedBy(edits, k - 1, l) + DeletedAt(edits[k - 1], l)) - NumbersOf(AddedAt(edits[k - 1], l))
  }

  /** The version after the first `k` edits: sorted, and exactly the files added and not deleted. */
  ghost predicate IsReplayed(base: Version, edits: seq<VersionEdit>, k: nat, v: Version)
    requires k <= |edits| && |base| == NUM_LEVELS
  {
    && |v| == NUM_LEVELS
    && forall l :: 0 <= l < NUM_LEVELS ==>
         && SortedBySmallest(v[l])
         && forall f :: f in v[l] <==>
               (f in base[l] || f in AddedBy(edits, k, l)) && f.number !in DeletedBy(edits, k, l)
  }

  /** Edit `k` brings to level `l` only numbers that never were on it. */
  ghost predicate BringsNewNumbers(base: Version, edits: seq<VersionEdit>, k: nat, l: nat)
    requires |base| == NUM_LEVELS && k < |edits| && l < NUM_LEVELS
  {
    && Enters([], edits[k], l)
    && forall f, g :: (f in base[l] || f in AddedBy(edits, k, l)) && g in AddedAt(edits[k], l) ==> f.number != g.number
  }

  /** A file number enters a level at most once. */
  ghost predicate EntersLevelsOnce(base: Version, edits: seq<VersionEdit>)
    requires |base| == NUM_LEVELS
  {
    && (forall k :: 0 <= k < |edits| ==> ValidEdit(edits[k]))
    && (forall k, l :: 0 <= k < |edits| && 0 <= l < NUM_LEVELS ==> BringsNewNumbers(base, edits, k, l))
  }

  lemma ReplayedIsUnique(base: Version, edits: seq<VersionEdit>, v: Version, w: Version)
    requires |base| == NUM_LEVELS && IsReplayed(base, edits, |edits|, v) && IsReplayed(base, edits, |edits|, w)
    ensures v == w
  {
    forall l | 0 <= l < NUM_LEVELS ensures v[l] == w[l] {
      SortedIsUnique(v[l], w[l]);
    }
  }

  lemma EntersAfter(added: seq<FileMeta>, base: Version, edits: seq<VersionEdit>, k: nat, l: nat)
    requires |base| == NUM_LEVELS && EntersLevelsOnce(base, edits) && k < |edits| && l < NUM_LEVELS
    requires forall f :: f in added <==> f in AddedBy(edits, k, l)
    ensures Enters(added, edits[k], l)
  {
    assert BringsNewNumbers(base, edits, k, l);
    forall i, f | 0 <= i < |edits[k].newFiles| && edits[k].newFiles[i].0 == l && f in added
      ensures f.number != edits[k].newFiles[i].1.number
    {
      assert edits[k].newFiles[i] in edits[k].newFiles;
      assert edits[k].newFiles[i].1 in AddedAt(edits[k], l);
    }
  }

  lemma {:induction false} BaseNumbersStayApart(base: Version, edits: seq<VersionEdit>, k: nat, l: nat)
    requires |base| == NUM_LEVELS && EntersLevelsOnce(base, edits) && k <= |edits| && l < NUM_LEVELS
    ensures forall f, g :: f in base[l] && g in AddedBy(edits, k, l) ==> f.number != g.number
  {
    if k > 0 {
      BaseNumbersStayApart(base, edits, k - 1, l);
      assert BringsNewNumbers(base, edits, k - 1, l);
    }
  }

  lemma BaseIsApart(base: Version, edits: seq<VersionEdit>, k: nat, l: nat, added: seq<FileMeta>)
    requires |base| == NUM_LEVELS && EntersLevelsOnce(base, edits) && k <= |edits| && l < NUM_LEVELS
    requires forall f :: f in added <==> f in AddedBy(edits, k, l)
    ensures Apart(base[l], added)
  {
    BaseNumbersStayApart(base, edits, k, l);
  }

  lemma StepIsApart(base: Version, edits: seq<VersionEdit>, k: nat, l: nat, current: seq<FileMeta>,
                    added: seq<FileMeta>)
    requires |base| == NUM_LEVELS && EntersLevelsOnce(base, edits) && k < |edits| && l < NUM_LEVELS
    requires forall f :: f in current ==> f in base[l] || f in AddedBy(edits, k, l)
    requires forall f :: f in added ==> f in AddedAt(edits[k], l)
    ensures Apart(current, added)
  {
    assert BringsNewNumbers(base, edits, k, l);
  }

  /** Saving one edit on top of the version after `k` edits gives the version after `k + 1` edits. */
  lemma OneStep(base: Version, edits: seq<VersionEdit>, k: nat, l: nat, current: seq<FileMeta>, added: seq<FileMeta>,
                deleted: set<nat>, saved: seq<FileMeta>)
    requires |base| == NUM_LEVELS && EntersLevelsOnce(base, edits) && k < |edits| && l < NUM_LEVELS
    requires forall f :: f in current <==>
              (f in base[l] || f in AddedBy(edits, k, l)) && f.number !in DeletedBy(edits, k, l)
    requires forall f :: f in added <==> f in AddedAt(edits[k], l)
    requires deleted == DeletedAt(edits[k], l) - NumbersOf(AddedAt(edits[k], l))
    requires IsSaved(current, added, deleted, saved)
    ensures forall f :: f in saved <==>
              (f in base[l] || f in AddedBy(edits, k + 1, l)) && f.number !in DeletedBy(edits, k + 1, l)
  {
    assert BringsNewNumbers(base, edits, k, l);
    var news := AddedAt(edits[k], l);
    forall f ensures f in saved <==>
      (f in base[l] || f in AddedBy(edits, k + 1, l)) && f.number !in DeletedBy(edits, k + 1, l)
    {
      assert f in news ==> f.number in NumbersOf(news);
      if f in base[l] || f in AddedBy(edits, k, l) {
        assert f.number !in NumbersOf(news);
      }
    }
  }

  // ----- what else the manifest says -----

  /** `r` is the last value given, if one is. */
  ghost predicate IsLast<T>(xs: seq<Option<T>>, r: Option<T>) {
    if r.None? then forall k :: 0 <= k < |xs| ==> xs[k].None?
    else exists k :: 0 <= k < |xs| && xs[k] == r && forall j :: k < j < |xs| ==> xs[j].None?
  }

  function Override<T>(before: Option<T>, next: Option<T>): Option<T> {
    if next.Some? then next else before
  }

  lemma LastGrows<T>(xs: seq<Option<T>>, r: Option<T>, x: Option<T>)
    requires IsLast(xs, r)
    ensures IsLast(xs + [x], Override(r, x))
  {
    var ys := xs + [x];
    if x.Some? {
      assert ys[|xs|] == x;
    } else if r.Some? {
      var k :| 0 <= k < |xs| && xs[k] == r && forall j :: k < j < |xs| ==> xs[j].None?;
      assert ys[k] == r;
    }
  }

  function Headers(edits: seq<VersionEdit>): (r: seq<Header>)
    ensures |r| == |edits| && forall i :: 0 <= i < |r| ==> r[i] == edits[i].header
  {
    seq(|edits|, i requires 0 <= i < |edits| => edits[i].header)
  }

  ghost function LogNumbers(hs: seq<Header>): seq<Option<nat>> {
    seq(|hs|, i requires 0 <= i < |hs| => hs[i].logNumber)
  }

  ghost function PrevLogNumbers(hs: seq<Header>): seq<Option<nat>> {
    seq(|hs|, i requires 0 <= i < |hs| => hs[i].prevLogNumber)
  }

  ghost function NextFileNumbers(hs: seq<Header>): seq<Option<nat>> {
    seq(|hs|, i requires 0 <= i < |hs| => hs[i].nextFileNumber)
  }

  ghost function LastSequences(hs: seq<Header>): seq<Option<nat>> {
    seq(|hs|, i requires 0 <= i < |hs| => hs[i].lastSequence)
  }

  /** Every number of `h` is the last one that the headers give. */
  ghost predicate IsLatest(hs: seq<Header>, h: Header) {
    && IsLast(LogNumbers(hs), h.logNumber) && IsLast(PrevLogNumbers(hs), h.prevLogNumber)
    && IsLast(NextFileNumbers(hs), h.nextFileNumber) && IsLast(LastSequences(hs), h.lastSequence)
  }

  /** The if-statements at the end of the loop in `Recover`. */
  function Latest(h: Header, next: Header): Header {
    Header(None, Override(h.logNumber, next.logNumber), Override(h.prevLogNumber, next.prevLogNumber),
           Override(h.nextFileNumber, next.nextFileNumber), Override(h.lastSequence, next.lastSequence))
  }

  lemma LatestGrows(hs: seq<Header>, h: Header, next: Header)
    requires IsLatest(hs, h)
    ensures IsLatest(hs + [next], Latest(h, next))
  {
    hide IsLast;
    LastGrows(LogNumbers(hs), h.logNumber, next.logNumber);
    LastGrows(PrevLogNumbers(hs), h.prevLogNumber, next.prevLogNumber);
    LastGrows(NextFileNumbers(hs), h.nextFileNumber, next.nextFileNumber);
    LastGrows(LastSequences(hs), h.lastSequence, next.lastSequence);
    var all := hs + [next];
    assert LogNumbers(all) == LogNumbers(hs) + [next.logNumber];
    assert PrevLogNumbers(all) == PrevLogNumbers(hs) + [next.prevLogNumber];
    assert NextFileNumbers(all) == NextFileNumbers(hs) + [next.nextFileNumber];
    assert LastSequences(all) == LastSequences(hs) + [next.lastSequence];
  }

  /** The compaction pointers of all edits, in the order of the manifest. */
  function Pointers(edits: seq<VersionEdit>): seq<(nat, InternalKey)> {
    if edits == [] then [] else Pointers(edits[..|edits| - 1]) + edits[|edits| - 1].compactPointers
  }

  ghost function PointersAt(ps: seq<(nat, InternalKey)>, l: nat): seq<Option<InternalKey>> {
    seq(|ps|, i requires 0 <= i < |ps| => if ps[i].0 == l then Some(ps[i].1) else None)
  }

  /** On every level stands the last pointer given for it. */
  ghost predicate PointersLatest(ps: seq<(nat, InternalKey)>, pointers: seq<Option<InternalKey>>) {
    |pointers| == NUM_LEVELS && forall l :: 0 <= l < NUM_LEVELS ==> IsLast(PointersAt(ps, l), pointers[l])
  }

  /** The first loop of `Apply`, on `compact_pointer_`. */
  method MovePointers(pointers: seq<Option<InternalKey>>, edit: VersionEdit, ghost ps: seq<(nat, InternalKey)>)
    returns (r: seq<Option<InternalKey>>)
    requires PointersLatest(ps, pointers) && forall p :: p in edit.compactPointers ==> p.0 < NUM_LEVELS
    ensures PointersLatest(ps + edit.compactPointers, r)
  {
    hide IsLast, PointersAt;
    r := pointers;
    assert ps + edit.compactPointers[..0] == ps;
    for i := 0 to |edit.compactPointers|
      invariant PointersLatest(ps + edit.compactPointers[..i], r)
    {
      var p := edit.compactPointers[i];
      PointerGrows(ps + edit.compactPointers[..i], r, p);
      r := r[p.0 := Some(p.1)];
      assert ps + edit.compactPointers[..i + 1] == (ps + edit.compactPointers[..i]) + [p];
    }
    assert edit.compactPointers[..|edit.compactPointers|] == edit.compactPointers;
  }

  lemma PointerGrows(ps: seq<(nat, InternalKey)>, pointers: seq<Option<InternalKey>>, p: (nat, InternalKey))
    requires PointersLatest(ps, pointers) && p.0 < NUM_LEVELS
    ensures PointersLatest(ps + [p], pointers[p.0 := Some(p.1)])
  {
    hide IsLast;
    forall l | 0 <= l < NUM_LEVELS ensures IsLast(PointersAt(ps + [p], l), pointers[p.0 := Some(p.1)][l]) {
      LastGrows(PointersAt(ps, l), pointers[l], if p.0 == l then Some(p.1) else None);
      assert PointersAt(ps + [p], l) == PointersAt(ps, l) + [if p.0 == l then Some(p.1) else None];
    }
  }

  datatype Field = NextFile | LogNumber | LastSequence

  /** What `Recover` returns, or leaves in the version set. */
  datatype Recovered =
    | WrongComparator
    | Missing(field: Field)
    | Recovered(version: Version, pointers: seq<Option<InternalKey>>, logNumber: nat, prevLogNumber: nat,
                manifestFileNumber: nat, nextFileNumber: nat, lastSequence: nat)

  predicate OtherComparator(edit: VersionEdit, comparator: string) {
    edit.header.comparator.Some? && edit.header.comparator.value != comparator
  }

  /** `Recover`: fold all edits of the manifest into one builder and save once; what else the manifest says is what it
      said last. */
  method Recover(base: Version, edits: seq<VersionEdit>, comparator: string) returns (r: Recovered)
    requires |base| == NUM_LEVELS && (forall l :: 0 <= l < NUM_LEVELS ==> SortedBySmallest(base[l]))
    requires EntersLevelsOnce(base, edits)
    requires forall k, p :: 0 <= k < |edits| && p in edits[k].compactPointers ==> p.0 < NUM_LEVELS
    ensures r.WrongComparator? <==> exists k :: 0 <= k < |edits| && OtherComparator(edits[k], comparator)
    ensures r.Missing? ==> match r.field
                           case NextFile => IsLast(NextFileNumbers(Headers(edits)), None)
                           case LogNumber => IsLast(LogNumbers(Headers(edits)), None)
                           case LastSequence => IsLast(LastSequences(Headers(edits)), None)
    ensures r.Recovered? ==> IsReplayed(base, edits, |edits|, r.version) && PointersLatest(Pointers(edits), r.pointers)
    ensures r.Recovered? ==> exists h ::
              && IsLatest(Headers(edits), h) && h.logNumber == Some(r.logNumber)
              && h.lastSequence == Some(r.lastSequence)
              && h.nextFileNumber == Some(r.manifestFileNumber) && r.nextFileNumber == r.manifestFileNumber + 1
              && r.prevLogNumber == if h.prevLogNumber.None? then 0 else h.prevLogNumber.value
  {
    hide AddedAt, DeletedAt, NumbersOf, SortedBySmallest, SamePlace, Enters, IsLatest, PointersLatest, IsLast;
    var builder := new Builder(base);
    var pointers: seq<Option<InternalKey>>, h := seq(NUM_LEVELS, _ => None), NO_HEADER;
    NothingGiven(pointers);
    for k := 0 to |edits|
      invariant builder.Valid() && fresh(builder) && builder.base == base
      invariant forall l :: 0 <= l < NUM_LEVELS ==> builder.deletedFiles[l] == DeletedBy(edits, k, l)
      invariant forall l :: 0 <= l < NUM_LEVELS ==> forall f :: f in builder.addedFiles[l] <==>
                f in AddedBy(edits, k, l)
      invariant forall j :: 0 <= j < k ==> !OtherComparator(edits[j], comparator)
      invariant IsLatest(Headers(edits[..k]), h) && PointersLatest(Pointers(edits[..k]), pointers)
    {
      if OtherComparator(edits[k], comparator) {
        return WrongComparator;
      }
      forall l | 0 <= l < NUM_LEVELS ensures Enters(builder.addedFiles[l], edits[k], l) {
        EntersAfter(builder.addedFiles[l], base, edits, k, l);
      }
      OneMore(edits, k, h);
      pointers := MovePointers(pointers, edits[k], Pointers(edits[..k]));
      builder.Apply(edits[k]);
      h := Latest(h, edits[k].header);
    }
    assert edits[..|edits|] == edits;
    LatestIs(Headers(edits), h);
    if h.nextFileNumber.None? {
      return Missing(NextFile);
    } else if h.logNumber.None? {
      return Missing(LogNumber);
    } else if h.lastSequence.None? {
      return Missing(LastSequence);
    }
    forall l | 0 <= l < NUM_LEVELS ensures Apart(base[l], builder.addedFiles[l]) {
      BaseIsApart(base, edits, |edits|, l, builder.addedFiles[l]);
    }
    var v := builder.SaveTo();
    var prev := if h.prevLogNumber.None? then 0 else h.prevLogNumber.value;
    r := Recovered(v, pointers, h.logNumber.value, prev, h.nextFileNumber.value, h.nextFileNumber.value + 1,
                   h.lastSequence.value);
  }

  lemma NothingGiven(pointers: seq<Option<InternalKey>>)
    requires pointers == seq(NUM_LEVELS, _ => None)
    ensures IsLatest(Headers([]), NO_HEADER) && PointersLatest(Pointers([]), pointers)
  {
  }

  lemma LatestIs(hs: seq<Header>, h: Header)
    requires IsLatest(hs, h)
    ensures IsLast(LogNumbers(hs), h.logNumber) && IsLast(NextFileNumbers(hs), h.nextFileNumber)
    ensures IsLast(LastSequences(hs), h.lastSequence)
  {
    hide IsLast;
  }

  lemma OneMore(edits: seq<VersionEdit>, k: nat, h: Header)
    requires k < |edits| && IsLatest(Headers(edits[..k]), h)
    ensures IsLatest(Headers(edits[..k + 1]), Latest(h, edits[k].header))
    ensures Pointers(edits[..k + 1]) == Pointers(edits[..k]) + edits[k].compactPointers
  {
    hide IsLatest;
    LatestGrows(Headers(edits[..k]), h, edits[k].header);
    assert Headers(edits[..k + 1]) == Headers(edits[..k]) + [edits[k].header];
    assert edits[..k + 1][..k] == edits[..k];
  }

  /** The same edits applied one version at a time, as `LogAndApply` did when they were written. */
  method ApplyStepwise(base: Version, edits: seq<VersionEdit>) returns (v: Version)
    requires |base| == NUM_LEVELS && (forall l :: 0 <= l < NUM_LEVELS ==> SortedBySmallest(base[l]))
    requires EntersLevelsOnce(base, edits)
    ensures IsReplayed(base, edits, |edits|, v)
  {
    hide AddedAt, DeletedAt, NumbersOf, SortedBySmallest, SamePlace, Enters;
    v := base;
    for k := 0 to |edits|
      invariant IsReplayed(base, edits, k, v)
    {
      var builder := new Builder(v);
      forall l | 0 <= l < NUM_LEVELS ensures Enters(builder.addedFiles[l], edits[k], l) {
        assert BringsNewNumbers(base, edits, k, l);
      }
      builder.Apply(edits[k]);
      forall l | 0 <= l < NUM_LEVELS ensures Apart(v[l], builder.addedFiles[l]) {
        StepIsApart(base, edits, k, l, v[l], builder.addedFiles[l]);
      }
      var w := builder.SaveTo();
      forall l | 0 <= l < NUM_LEVELS
        ensures forall f :: f in w[l] <==>
                  (f in base[l] || f in AddedBy(edits, k + 1, l)) && f.number !in DeletedBy(edits, k + 1, l)
      {
        OneStep(base, edits, k, l, v[l], builder.addedFiles[l], builder.deletedFiles[l], w[l]);
      }
      v := w;
    }
  }
}
