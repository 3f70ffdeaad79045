/** Bidirectional iteration over sorted runs and over their merge (table/merger.cc). */
module Merging {
  import opened InternalKeys

  predicate SortedKeys(es: seq<Entry>) {
    forall i, j :: 0 <= i < j < |es| ==> Before(es[i].key, es[j].key)
  }

  /** `p` is the first position whose key is at or after `key`. */
  ghost predicate FirstAtOrAfter(es: seq<Entry>, key: InternalKey, p: nat) {
    && p <= |es|
    && (forall i :: 0 <= i < p ==> Before(es[i].key, key))
    && (forall i :: p <= i < |es| ==> AtOrBefore(key, es[i].key))
  }

  /** An iterator over one sorted run; `pos == |entries|` marks it invalid, as in `LevelFileNumIterator`. */
  class Cursor {
    const entries: seq<Entry>
    var pos: nat

    ghost predicate Inv() reads this {
      pos <= |entries| && SortedKeys(entries)
    }

    constructor (entries: seq<Entry>)
      requires SortedKeys(entries)
      ensures Inv() && this.entries == entries && pos == |entries|
    {
      this.entries := entries;
      pos := |entries|;
    }

    predicate Valid() reads this {
      pos < |entries|
    }

    function Key(): InternalKey
      requires Valid()
      reads this
    {
      entries[pos].key
    }

    method SeekToFirst()
      requires Inv()
      modifies this
      ensures Inv() && pos == 0
    {
      pos := 0;
    }

    method SeekToLast()
      requires Inv()
      modifies this
      ensures Inv() && pos == if entries == [] then 0 else |entries| - 1
    {
      pos := if entries == [] then 0 else |entries| - 1;
    }

    method Next()
      requires Inv() && Valid()
      modifies this
      ensures Inv() && pos == old(pos) + 1
    {
      pos := pos + 1;
    }

    method Prev()
      requires Inv() && Valid()
      modifies this
      ensures Inv() && pos == if old(pos) == 0 then |entries| else old(pos) - 1
    {
      pos := if pos == 0 then |entries| else pos - 1;
    }

    method Seek(target: InternalKey)
      requires Inv()
      modifies this
      ensures Inv() && FirstAtOrAfter(entries, target, pos)
    {
      pos := 0;
      while pos < |entries| && Before(entries[pos].key, target)
        invariant pos <= |entries|
        invariant forall i :: 0 <= i < pos ==> Before(entries[i].key, target)
      {
        pos := pos + 1;
      }
      if pos < |entries| {
        forall i | pos <= i < |entries| ensures AtOrBefore(target, entries[i].key) {
          BeforeIsStrictTotalOrder(target, entries[pos].key, entries[i].key);
          BeforeIsStrictTotalOrder(entries[pos].key, target, target);
        }
      }
    }

    /** To the last entry before the target, where the merging iterator goes before it moves backward. */
    method SeekBefore(target: InternalKey) returns (ghost p: nat)
      requires Inv()
      modifies this
      ensures Inv() && FirstAtOrAfter(entries, target, p) && pos == Previous(entries, p)
    {
      Seek(target);
      p := pos;
      if Valid() {
        Prev();
      } else {
        SeekToLast();
      }
    }
  }

  /** Where `Prev` leads from position `p`. */
  function Previous(run: seq<Entry>, p: nat): nat
    requires p <= |run|
  {
    if p == 0 then |run| else p - 1
  }

  /** `merged` lists the entries of all runs in order. */
  ghost predicate IsUnion(runs: seq<seq<Entry>>, merged: seq<Entry>) {
    && SortedKeys(merged)
    && (forall i, e :: 0 <= i < |runs| && e in runs[i] ==> e in merged)
    && (forall e :: e in merged ==> exists i :: 0 <= i < |runs| && e in runs[i])
  }

  ghost predicate DistinctKeys(runs: seq<seq<Entry>>) {
    forall i, j, a, b :: 0 <= i < |runs| && 0 <= j < |runs| && i != j && a in runs[i] && b in runs[j] ==> a.key != b.key
  }

  /** The first `p` entries of the run are those among the first `n` merged entries. */
  ghost predicate Splits(run: seq<Entry>, merged: seq<Entry>, n: nat, p: nat) {
    && p <= |run| && n <= |merged|
    && (forall q :: 0 <= q < p ==> run[q] in merged[..n])
    && (forall q :: p <= q < |run| ==> run[q] in merged[n..])
  }

  ghost predicate AllSplit(runs: seq<seq<Entry>>, merged: seq<Entry>, n: nat, ps: seq<nat>) {
    |ps| == |runs| && forall i :: 0 <= i < |runs| ==> ps[i] <= |runs[i]| && Splits(runs[i], merged, n, ps[i])
  }

  lemma SortedIndex(es: seq<Entry>, i: nat, j: nat)
    requires SortedKeys(es) && i < |es| && j < |es|
    ensures Before(es[i].key, es[j].key) <==> i < j
    ensures AtOrBefore(es[i].key, es[j].key) <==> i <= j
  {
    BeforeIsStrictTotalOrder(es[i].key, es[j].key, es[i].key);
  }

  /** The merged entry at `n` heads one of the runs split at `n`. */
  lemma HeadOfSomeRun(runs: seq<seq<Entry>>, merged: seq<Entry>, n: nat, ps: seq<nat>) returns (j: nat)
    requires IsUnion(runs, merged) && AllSplit(runs, merged, n, ps) && n < |merged|
    requires forall i :: 0 <= i < |runs| ==> SortedKeys(runs[i])
    ensures j < |runs| && ps[j] < |runs[j]| && runs[j][ps[j]] == merged[n]
  {
    assert merged[n] in merged;
    j :| 0 <= j < |runs| && merged[n] in runs[j];
    var q :| 0 <= q < |runs[j]| && runs[j][q] == merged[n];
    assert ps[j] <= q;
    var k :| n <= k < |merged| && merged[k] == runs[j][ps[j]];
    SortedIndex(merged, n, k);
    SortedIndex(runs[j], ps[j], q);
    BeforeIsStrictTotalOrder(merged[n].key, merged[k].key, merged[n].key);
  }

  /** The merged entry before `n` is the last one of some run below its split. */
  lemma TailOfSomeRun(runs: seq<seq<Entry>>, merged: seq<Entry>, n: nat, ps: seq<nat>) returns (j: nat)
    requires IsUnion(runs, merged) && AllSplit(runs, merged, n, ps) && 0 < n <= |merged|
    requires forall i :: 0 <= i < |runs| ==> SortedKeys(runs[i])
    ensures j < |runs| && ps[j] > 0 && runs[j][ps[j] - 1] == merged[n - 1]
  {
    assert merged[n - 1] in merged;
    j :| 0 <= j < |runs| && merged[n - 1] in runs[j];
    var q :| 0 <= q < |runs[j]| && runs[j][q] == merged[n - 1];
    assert q < ps[j];
    var k :| 0 <= k < n && merged[k] == runs[j][ps[j] - 1];
    SortedIndex(merged, k, n - 1);
    SortedIndex(runs[j], q, ps[j] - 1);
    BeforeIsStrictTotalOrder(merged[n - 1].key, merged[k].key, merged[n - 1].key);
  }

  /** `c` is what `FindSmallest` picks. */
  ghost predicate IsSmallest(runs: seq<seq<Entry>>, pos: seq<nat>, c: int)
    requires |pos| == |runs|
  {
    if c == -1 then forall i :: 0 <= i < |runs| ==> pos[i] >= |runs[i]|
    else
      && 0 <= c < |runs| && pos[c] < |runs[c]|
      && forall i :: 0 <= i < |runs| && pos[i] < |runs[i]| ==> AtOrBefore(runs[c][pos[c]].key, runs[i][pos[i]].key)
  }

  /** `c` is what `FindLargest` picks. */
  ghost predicate IsLargest(runs: seq<seq<Entry>>, pos: seq<nat>, c: int)
    requires |pos| == |runs|
  {
    if c == -1 then forall i :: 0 <= i < |runs| ==> pos[i] >= |runs[i]|
    else
      && 0 <= c < |runs| && pos[c] < |runs[c]|
      && forall i :: 0 <= i < |runs| && pos[i] < |runs[i]| ==> AtOrBefore(runs[i][pos[i]].key, runs[c][pos[c]].key)
  }

  /** Among runs split at `n` the smallest head is merged[n]. */
  lemma SmallestIsNext(runs: seq<seq<Entry>>, merged: seq<Entry>, n: nat, pos: seq<nat>, c: int)
    requires IsUnion(runs, merged) && AllSplit(runs, merged, n, pos) && n <= |merged|
    requires forall i :: 0 <= i < |runs| ==> SortedKeys(runs[i])
    requires IsSmallest(runs, pos, c)
    ensures c == -1 <==> n == |merged|
    ensures c != -1 ==> merged[n] == runs[c][pos[c]]
  {
    if n < |merged| {
      var j := HeadOfSomeRun(runs, merged, n, pos);
      var k :| n <= k < |merged| && merged[k] == runs[c][pos[c]];
      SortedIndex(merged, k, n);
    }
  }

  /** Among runs split at `n` the largest entry before the splits is merged[n - 1]. */
  lemma LargestIsPrevious(runs: seq<seq<Entry>>, merged: seq<Entry>, n: nat, ps: seq<nat>, pos: seq<nat>, c: int)
    requires IsUnion(runs, merged) && AllSplit(runs, merged, n, ps) && n <= |merged|
    requires forall i :: 0 <= i < |runs| ==> SortedKeys(runs[i])
    requires |pos| == |runs| && forall i :: 0 <= i < |runs| ==> pos[i] == Previous(runs[i], ps[i])
    requires IsLargest(runs, pos, c)
    ensures c == -1 <==> n == 0
    ensures c != -1 ==> merged[n - 1] == runs[c][pos[c]]
  {
    if n > 0 {
      var j := TailOfSomeRun(runs, merged, n, ps);
      var k :| 0 <= k < n && merged[k] == runs[c][pos[c]];
      SortedIndex(merged, n - 1, k);
    }
  }

  /** Seeking every run and the merge to the same key splits the runs where the merge is split. */
  lemma SeekSplits(runs: seq<seq<Entry>>, merged: seq<Entry>, key: InternalKey, n: nat, i: nat, p: nat)
    requires IsUnion(runs, merged) && i < |runs| && SortedKeys(runs[i])
    requires FirstAtOrAfter(merged, key, n) && FirstAtOrAfter(runs[i], key, p)
    ensures Splits(runs[i], merged, n, p)
  {
    forall q | 0 <= q < |runs[i]| ensures if q < p then runs[i][q] in merged[..n] else runs[i][q] in merged[n..] {
      assert runs[i][q] in runs[i];
      assert runs[i][q] in merged;
      var k :| 0 <= k < |merged| && merged[k] == runs[i][q];
      BeforeIsStrictTotalOrder(key, merged[k].key, key);
    }
  }

  /** Passing merged[n], which heads run `c`, moves the split of `c` only. */
  lemma SplitAdvances(runs: seq<seq<Entry>>, merged: seq<Entry>, n: nat, ps: seq<nat>, c: nat)
    requires IsUnion(runs, merged) && DistinctKeys(runs) && AllSplit(runs, merged, n, ps) && n < |merged|
    requires forall i :: 0 <= i < |runs| ==> SortedKeys(runs[i])
    requires c < |runs| && ps[c] < |runs[c]| && runs[c][ps[c]] == merged[n]
    ensures AllSplit(runs, merged, n + 1, ps[c := ps[c] + 1])
  {
    forall i | 0 <= i < |runs| ensures Splits(runs[i], merged, n + 1, ps[c := ps[c] + 1][i]) {
      forall q | 0 <= q < |runs[i]|
        ensures if q < ps[c := ps[c] + 1][i] then runs[i][q] in merged[..n + 1] else runs[i][q] in merged[n + 1..]
      {
        assert runs[i][q] in runs[i] && merged[n] in runs[c];
        if q < ps[i] {
          var k :| 0 <= k < n && merged[k] == runs[i][q];
          assert merged[..n + 1][k] == runs[i][q];
        } else {
          var k :| n <= k < |merged| && merged[k] == runs[i][q];
          if i == c {
            SortedIndex(runs[c], ps[c], q);
          }
          assert k > n ==> merged[n + 1..][k - n - 1] == runs[i][q];
        }
      }
    }
  }

  /** Stepping back to merged[n - 1], the last entry of run `c` before its split, moves the split of `c` only. */
  lemma SplitRetreats(runs: seq<seq<Entry>>, merged: seq<Entry>, n: nat, ps: seq<nat>, c: nat)
    requires IsUnion(runs, merged) && DistinctKeys(runs) && AllSplit(runs, merged, n, ps) && 0 < n <= |merged|
    requires forall i :: 0 <= i < |runs| ==> SortedKeys(runs[i])
    requires c < |runs| && ps[c] > 0 && runs[c][ps[c] - 1] == merged[n - 1]
    ensures AllSplit(runs, merged, n - 1, ps[c := ps[c] - 1])
  {
    forall i | 0 <= i < |runs| ensures Splits(runs[i], merged, n - 1, ps[c := ps[c] - 1][i]) {
      forall q | 0 <= q < |runs[i]|
        ensures if q < ps[c := ps[c] - 1][i] then runs[i][q] in merged[..n - 1] else runs[i][q] in merged[n - 1..]
      {
        assert runs[i][q] in runs[i] && merged[n - 1] in runs[c];
        if q < ps[i] {
          var k :| 0 <= k < n && merged[k] == runs[i][q];
          if i == c {
            SortedIndex(runs[c], q, ps[c] - 1);
          }
          assert k < n - 1 ==> merged[..n - 1][k] == runs[i][q];
          assert k == n - 1 ==> merged[n - 1..][0] == runs[i][q];
        } else {
          var k :| n <= k < |merged| && merged[k] == runs[i][q];
          assert merged[n - 1..][k - n + 1] == runs[i][q];
        }
      }
    }
  }

  /** `MergingIterator`: `at` is its position in the merged sequence, |merged| when it is not valid. */
  class MergingIterator {
    const children: seq<Cursor>
    ghost const runs: seq<seq<Entry>>
    ghost const merged: seq<Entry>
    ghost var at: nat
    ghost var splits: seq<nat>
    var current: int
    var forward: bool

    ghost predicate ChildrenInv() reads this, children {
      && |runs| == |children|
      && (forall i :: 0 <= i < |children| ==> children[i].Inv() && children[i].entries == runs[i])
      && (forall i :: 0 <= i < |runs| ==> SortedKeys(runs[i]))
      && (forall i, j :: 0 <= i < j < |children| ==> children[i] != children[j])
      && IsUnion(runs, merged) && DistinctKeys(runs)
    }

    /** While valid, every run is split at the current entry; the other children stand at their splits when
        moving forward and just before them when moving backward. */
    ghost predicate Inv()
      reads this, children
      ensures Inv() ==> at <= |merged| && (Valid() <==> at < |merged|)
    {
      && ChildrenInv()
      && at <= |merged|
      && (current == -1 <==> at == |merged|)
      && (current != -1 ==>
            && AllSplit(runs, merged, at, splits)
            && 0 <= current < |children| && children[current].Valid()
            && runs[current][children[current].pos] == merged[at]
            && children[current].pos == splits[current]
            && forall i :: 0 <= i < |children| && i != current ==>
                 children[i].pos == if forward then splits[i] else Previous(runs[i], splits[i]))
    }

    ghost function Positions(): (p: seq<nat>)
      reads this, children
      ensures |p| == |children| && forall i :: 0 <= i < |children| ==> p[i] == children[i].pos
    {
      seq(|children|, i requires 0 <= i < |children| reads children => children[i].pos)
    }

    constructor (children: seq<Cursor>, ghost merged: seq<Entry>)
      requires forall i :: 0 <= i < |children| ==> children[i].Inv()
      requires forall i, j :: 0 <= i < j < |children| ==> children[i] != children[j]
      requires var runs := seq(|children|, i requires 0 <= i < |children| => children[i].entries);
               IsUnion(runs, merged) && DistinctKeys(runs)
      ensures Inv() && this.children == children && this.merged == merged && at == |merged|
    {
      this.children := children;
      this.merged := merged;
      this.runs := seq(|children|, i requires 0 <= i < |children| => children[i].entries);
      at := |merged|;
      splits := [];
      current := -1;
      forward := true;
    }

    predicate Valid() reads this {
      current != -1
    }

    function Item(): (e: Entry)
      requires Inv() && Valid()
      reads this, children
      ensures e == merged[at]
    {
      children[current].entries[children[current].pos]
    }

    /** The scan of `FindSmallest`. */
    method SmallestChild() returns (c: int)
      requires |runs| == |children|
      requires forall i :: 0 <= i < |children| ==> children[i].Inv() && children[i].entries == runs[i]
      ensures IsSmallest(runs, Positions(), c)
    {
      c := -1;
      for i := 0 to |children|
        invariant c == -1 ==> forall j :: 0 <= j < i ==> !children[j].Valid()
        invariant c != -1 ==> 0 <= c < i && children[c].Valid()
        invariant c != -1 ==> forall j :: 0 <= j < i && children[j].Valid() ==>
                  AtOrBefore(children[c].Key(), children[j].Key())
      {
        if children[i].Valid() {
          if c == -1 {
            c := i;
          } else {
            BeforeIsStrictTotalOrder(children[i].Key(), children[c].Key(), children[i].Key());
            if Before(children[i].Key(), children[c].Key()) {
              forall j | 0 <= j < i && children[j].Valid() ensures AtOrBefore(children[i].Key(), children[j].Key()) {
                BeforeIsStrictTotalOrder(children[i].Key(), children[c].Key(), children[j].Key());
              }
              c := i;
            }
          }
        }
      }
    }

    /** `FindSmallest`, with the assignment of `direction_` that follows it in every caller. */
    method FindSmallest(ghost n: nat, ghost ps: seq<nat>)
      requires ChildrenInv() && AllSplit(runs, merged, n, ps) && n <= |merged|
      requires forall i :: 0 <= i < |children| ==> children[i].pos == ps[i]
      modifies this`current, this`splits, this`forward, this`at
      ensures Inv() && forward && at == n
    {
      hide IsUnion, DistinctKeys, Splits;
      current := SmallestChild();
      SmallestIsNext(runs, merged, n, Positions(), current);
      at, splits, forward := n, ps, true;
    }

    /** The scan of `FindLargest`. */
    method LargestChild() returns (c: int)
      requires |runs| == |children|
      requires forall i :: 0 <= i < |children| ==> children[i].Inv() && children[i].entries == runs[i]
      ensures IsLargest(runs, Positions(), c)
    {
      c := -1;
      for i := |children| downto 0
        invariant c == -1 ==> forall j :: i <= j < |children| ==> !children[j].Valid()
        invariant c != -1 ==> i <= c < |children| && children[c].Valid()
        invariant c != -1 ==> forall j :: i <= j < |children| && children[j].Valid() ==>
                  AtOrBefore(children[j].Key(), children[c].Key())
      {
        if children[i].Valid() {
          if c == -1 {
            c := i;
          } else {
            BeforeIsStrictTotalOrder(children[i].Key(), children[c].Key(), children[i].Key());
            if Before(children[c].Key(), children[i].Key()) {
              forall j | i <= j < |children| && children[j].Valid()
                ensures AtOrBefore(children[j].Key(), children[i].Key())
              {
                BeforeIsStrictTotalOrder(children[j].Key(), children[c].Key(), children[i].Key());
              }
              c := i;
            }
          }
        }
      }
    }

    /** `FindLargest`, with the assignment of `direction_` that follows it in every caller. */
    method FindLargest(ghost n: nat, ghost ps: seq<nat>)
      requires ChildrenInv() && AllSplit(runs, merged, n, ps) && n <= |merged|
      requires forall i :: 0 <= i < |children| ==> children[i].pos == Previous(runs[i], ps[i])
      modifies this`current, this`splits, this`forward, this`at
      ensures Inv() && !forward && at == if n == 0 then |merged| else n - 1
    {
      hide IsUnion, DistinctKeys, Splits;
      current := LargestChild();
      LargestIsPrevious(runs, merged, n, ps, Positions(), current);
      at, forward := if n == 0 then |merged| else n - 1, false;
      if n > 0 {
        SplitRetreats(runs, merged, n, ps, current);
        splits := ps[current := ps[current] - 1];
      }
    }

    method SeekToFirst()
      requires Inv()
      modifies this, children
      ensures Inv() && at == 0
    {
      hide IsUnion, DistinctKeys;
      for i := 0 to |children|
        invariant ChildrenInv()
        invariant forall j :: 0 <= j < i ==> children[j].pos == 0
      {
        children[i].SeekToFirst();
      }
      forall i | 0 <= i < |runs| ensures Splits(runs[i], merged, 0, 0) {
        WholeRun(runs, merged, i);
      }
      FindSmallest(0, seq(|runs|, _ => 0));
    }

    method SeekToLast()
      requires Inv()
      modifies this, children
      ensures Inv() && at == if merged == [] then 0 else |merged| - 1
    {
      hide IsUnion, DistinctKeys;
      for i := 0 to |children|
        invariant ChildrenInv()
        invariant forall j :: 0 <= j < i ==> children[j].pos == Previous(runs[j], |runs[j]|)
      {
        children[i].SeekToLast();
      }
      ghost var ends := seq(|runs|, i requires 0 <= i < |runs| => |runs[i]|);
      forall i | 0 <= i < |runs| ensures Splits(runs[i], merged, |merged|, ends[i]) {
        WholeRun(runs, merged, i);
      }
      FindLargest(|merged|, ends);
    }

    method Seek(target: InternalKey)
      requires Inv()
      modifies this, children
      ensures Inv() && FirstAtOrAfter(merged, target, at)
    {
      ghost var n := FirstPlace(merged, target);
      hide IsUnion, DistinctKeys, Splits;
      for i := 0 to |children|
        invariant ChildrenInv()
        invariant forall j :: 0 <= j < i ==> Splits(runs[j], merged, n, children[j].pos)
      {
        children[i].Seek(target);
        SeekSplits(runs, merged, target, n, i, children[i].pos);
      }
      FindSmallest(n, Positions());
    }

    lemma SplitsAre()
      requires AllSplit(runs, merged, at, splits)
      ensures |splits| == |runs| && forall i :: 0 <= i < |runs| ==> splits[i] <= |runs[i]|
    {
    }

    /** The repositioning at the start of `Next` after moving backward. */
    method TurnForward()
      requires Inv() && Valid() && !forward
      modifies this`forward, set i | 0 <= i < |children| && i != current :: children[i]
      ensures Inv() && forward
    {
      hide IsUnion, DistinctKeys, AllSplit, FirstAtOrAfter;
      SplitsAre();
      var key := Item().key;
      for i := 0 to |children|
        invariant ChildrenInv()
        invariant forall j :: 0 <= j < i && j != current ==> children[j].pos == splits[j]
      {
        if i != current {
          var child := children[i];
          child.Seek(key);
          CurrentSplits(i, child.pos);
          // The runs hold distinct keys, so the child never stands on the current key and has nothing to skip.
          assert !(child.Valid() && child.Key() == key);
        }
      }
      forward := true;
    }

    /** The repositioning at the start of `Prev` after moving forward. */
    method TurnBackward()
      requires Inv() && Valid() && forward
      modifies this`forward, set i | 0 <= i < |children| && i != current :: children[i]
      ensures Inv() && !forward
    {
      hide IsUnion, DistinctKeys, AllSplit, FirstAtOrAfter;
      SplitsAre();
      var key := Item().key;
      for i := 0 to |children|
        invariant ChildrenInv()
        invariant forall j :: 0 <= j < i && j != current ==> children[j].pos == Previous(runs[j], splits[j])
      {
        if i != current {
          var child := children[i];
          ghost var p := child.SeekBefore(key);
          CurrentSplits(i, p);
        }
      }
      forward := false;
    }

    method Next()
      requires Inv() && Valid()
      modifies this, children
      ensures Inv() && at == old(at) + 1
    {
      hide IsUnion, DistinctKeys, Splits;
      if !forward {
        TurnForward();
      }
      SplitAdvances(runs, merged, at, splits, current);
      children[current].Next();
      FindSmallest(at + 1, splits[current := splits[current] + 1]);
    }

    method Prev()
      requires Inv() && Valid()
      modifies this, children
      ensures Inv() && at == if old(at) == 0 then |merged| else old(at) - 1
    {
      hide IsUnion, DistinctKeys, Splits;
      if forward {
        TurnBackward();
      }
      children[current].Prev();
      FindLargest(at, splits);
    }

    /** Seeking another child to the current key puts it at its split, and never on the key itself. */
    lemma CurrentSplits(i: nat, p: nat)
      requires ChildrenInv() && AllSplit(runs, merged, at, splits)
      requires at < |merged| && 0 <= current < |runs| && splits[current] < |runs[current]|
      requires runs[current][splits[current]] == merged[at]
      requires i < |runs| && i != current && FirstAtOrAfter(runs[i], merged[at].key, p)
      ensures p == splits[i]
      ensures p < |runs[i]| ==> runs[i][p].key != merged[at].key
    {
      assert merged[at] in runs[current];
      assert p < |runs[i]| ==> runs[i][p] in runs[i];
      AtItsOwnKey(merged, at);
      SeekSplits(runs, merged, merged[at].key, at, i, p);
      SplitIsUnique(runs[i], merged, at, p, splits[i]);
    }
  }

  lemma AtItsOwnKey(es: seq<Entry>, i: nat)
    requires SortedKeys(es) && i < |es|
    ensures FirstAtOrAfter(es, es[i].key, i)
  {
  }

  lemma SplitIsUnique(run: seq<Entry>, merged: seq<Entry>, n: nat, p: nat, q: nat)
    requires SortedKeys(merged) && Splits(run, merged, n, p) && Splits(run, merged, n, q)
    ensures p == q
  {
    var m := if p < q then p else q;
    assert p != q ==> run[m] in merged[..n];
    forall i, j | 0 <= i < n <= j < |merged| ensures merged[i] != merged[j] {
      SortedIndex(merged, i, j);
      BeforeIsStrictTotalOrder(merged[i].key, merged[j].key, merged[i].key);
    }
  }

  lemma WholeRun(runs: seq<seq<Entry>>, merged: seq<Entry>, i: nat)
    requires IsUnion(runs, merged) && i < |runs|
    ensures Splits(runs[i], merged, 0, 0) && Splits(runs[i], merged, |merged|, |runs[i]|)
  {
    assert merged[..|merged|] == merged && merged[0..] == merged;
    forall q | 0 <= q < |runs[i]| ensures runs[i][q] in merged {
      assert runs[i][q] in runs[i];
    }
  }

  ghost function FirstPlace(es: seq<Entry>, key: InternalKey): (p: nat)
    requires SortedKeys(es)
    ensures FirstAtOrAfter(es, key, p)
  {
    if es == [] || !Before(es[|es| - 1].key, key) then
      if es == [] then 0
      else
        var p := FirstPlace(es[..|es| - 1], key);
        assert AtOrBefore(key, es[|es| - 1].key) by { BeforeIsStrictTotalOrder(es[|es| - 1].key, key, key); }
        p
    else
      assert forall i :: 0 <= i < |es| ==> Before(es[i].key, key) by {
        forall i | 0 <= i < |es| ensures Before(es[i].key,
                                                key) { BeforeIsStrictTotalOrder(es[i].key, es[|es| - 1].key, key); }
      }
      |es|
  }

  /** Inserting an entry with a new key into a sorted list. */
  lemma InsertEntry(es: seq<Entry>, e: Entry) returns (r: seq<Entry>)
    requires SortedKeys(es) && forall x :: x in es ==> x.key != e.key
    ensures SortedKeys(r) && forall x :: x in r <==> x in es || x == e
  {
    var p := FirstPlace(es, e.key);
    r := es[..p] + [e] + es[p..];
    assert es == es[..p] + es[p..];
    forall i | p <= i < |es| ensures Before(e.key, es[i].key) {
      assert es[i] in es;
    }
  }

  lemma {:induction false} InsertRun(es: seq<Entry>, run: seq<Entry>) returns (r: seq<Entry>)
    requires SortedKeys(es) && SortedKeys(run)
    requires forall a, b :: a in es && b in run ==> a.key != b.key
    ensures SortedKeys(r) && forall x :: x in r <==> x in es || x in run
  {
    if run == [] {
      r := es;
    } else {
      var rest, last := run[..|run| - 1], run[|run| - 1];
      r := InsertRun(es, rest);
      assert run == rest + [last];
      forall x | x in r ensures x.key != last.key {
        if x in rest {
          var i :| 0 <= i < |rest| && rest[i] == x;
          SortedIndex(run, i, |rest|);
          BeforeIsStrictTotalOrder(x.key, last.key, x.key);
        }
      }
      r := InsertEntry(r, last);
    }
  }

  /** Runs with distinct keys have a merge. */
  lemma {:induction false} MergeExists(runs: seq<seq<Entry>>) returns (merged: seq<Entry>)
    requires forall i :: 0 <= i < |runs| ==> SortedKeys(runs[i])
    requires DistinctKeys(runs)
    ensures IsUnion(runs, merged)
  {
    if runs == [] {
      merged := [];
    } else {
      var rest, last := runs[..|runs| - 1], runs[|runs| - 1];
      var m := MergeExists(rest);
      forall a, b | a in m && b in last ensures a.key != b.key {
        var i :| 0 <= i < |rest| && a in rest[i];
        assert a in runs[i] && b in runs[|runs| - 1];
      }
      merged := InsertRun(m, last);
      UnionGrows(runs, m, merged);
    }
  }

  lemma UnionGrows(runs: seq<seq<Entry>>, m: seq<Entry>, merged: seq<Entry>)
    requires runs != [] && IsUnion(runs[..|runs| - 1], m) && SortedKeys(merged)
    requires forall x :: x in merged <==> x in m || x in runs[|runs| - 1]
    ensures IsUnion(runs, merged)
  {
    var rest := runs[..|runs| - 1];
    forall i, e | 0 <= i < |runs| && e in runs[i] ensures e in merged {
      if i < |rest| {
        assert e in rest[i];
      }
    }
    forall e | e in merged ensures exists i :: 0 <= i < |runs| && e in runs[i] {
      if e in m {
        var i :| 0 <= i < |rest| && e in rest[i];
        assert e in runs[i];
      }
    }
  }

  /** `NewMergingIterator` over one cursor for each run. */
  method MergeRuns(runs: seq<seq<Entry>>, ghost merged: seq<Entry>) returns (iter: MergingIterator)
    requires forall i :: 0 <= i < |runs| ==> SortedKeys(runs[i])
    requires IsUnion(runs, merged) && DistinctKeys(runs)
    ensures iter.Inv() && fresh(iter) && fresh(set c | c in iter.children) && iter.merged == merged
  {
    hide IsUnion, DistinctKeys, SortedKeys;
    var children: seq<Cursor> := [];
    for i := 0 to |runs|
      invariant |children| == i
      invariant forall j :: 0 <= j < i ==> fresh(children[j]) && children[j].Inv() && children[j].entries == runs[j]
      invariant forall j, k :: 0 <= j < k < i ==> children[j] != children[k]
    {
      var cursor := new Cursor(runs[i]);
      children := children + [cursor];
    }
    assert seq(|children|, i requires 0 <= i < |children| => children[i].entries) == runs;
    iter := new MergingIterator(children, merged);
  }
}
