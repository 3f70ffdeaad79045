/** The user-level iterator (db/db_iter.cc): it hides sequence numbers, old versions and deletions. */
module DbIterator {
  import opened InternalKeys
  import opened MultiVersion
  import opened Merging

  /** Entry `i` is what a reader at sequence number `s` sees for its user key: the first entry for that key
      whose sequence number is at most `s`, and a value. */
  ghost predicate Live(es: seq<Entry>, s: nat, i: int) {
    && 0 <= i < |es|
    && es[i].key.sequence <= s && es[i].key.kind.Value?
    && forall j :: 0 <= j < i && es[j].key.user == es[i].key.user ==> es[j].key.sequence > s
  }

  /** The visible map as a sorted list of entries. */
  ghost function View(es: seq<Entry>, s: nat, n: nat): seq<Entry>
    requires n <= |es|
  {
    if n == 0 then []
    else if Live(es, s, n - 1) then View(es, s, n - 1) + [es[n - 1]]
    else View(es, s, n - 1)
  }

  ghost function Visible(es: seq<Entry>, s: nat): seq<Entry> {
    View(es, s, |es|)
  }

  lemma {:induction false} ViewPrefix(es: seq<Entry>, s: nat, m: nat, n: nat)
    requires m <= n <= |es|
    ensures View(es, s, m) <= View(es, s, n)
    ensures (forall k :: m <= k < n ==> !Live(es, s, k)) ==> View(es, s, m) == View(es, s, n)
    decreases n
  {
    if m < n {
      ViewPrefix(es, s, m, n - 1);
    }
  }

  /** A live entry stands in the visible list at the number of live entries before it. */
  lemma PlaceInView(es: seq<Entry>, s: nat, i: nat)
    requires Live(es, s, i)
    ensures |View(es, s, i)| < |Visible(es, s)| && Visible(es, s)[|View(es, s, i)|] == es[i]
  {
    ViewPrefix(es, s, i + 1, |es|);
  }

  /** Every visible entry comes from a live position. */
  lemma {:induction false} ViewIsLive(es: seq<Entry>, s: nat, n: nat, p: nat) returns (i: nat)
    requires n <= |es| && p < |View(es, s, n)|
    ensures i < n && Live(es, s, i) && es[i] == View(es, s, n)[p] && |View(es, s, i)| == p
  {
    if Live(es, s, n - 1) && p == |View(es, s, n)| - 1 {
      i := n - 1;
    } else {
      i := ViewIsLive(es, s, n - 1, p);
    }
  }

  /** The visible list is the visible map: its user keys ascend strictly, and user key `u` is in it with
      value `v` exactly when reading `u` at `s` finds `v`. */
  lemma VisibleIsTheMap(es: seq<Entry>, s: nat)
    requires SortedEntries(es)
    ensures forall p, q :: 0 <= p < q < |Visible(es, s)| ==> Visible(es, s)[p].key.user < Visible(es, s)[q].key.user
    ensures forall u, v :: Read(EntrySet(es), u, s) == Found(v) <==>
              exists p :: 0 <= p < |Visible(es, s)| && Visible(es, s)[p].key.user == u && Visible(es, s)[p].value == v
  {
    var list := Visible(es, s);
    forall p, q | 0 <= p < q < |list| ensures list[p].key.user < list[q].key.user {
      var i := ViewIsLive(es, s, |es|, p);
      var j := ViewIsLive(es, s, |es|, q);
      if j <= i {
        ViewPrefix(es, s, j, i);
      }
    }
    forall u, v
      ensures Read(EntrySet(es), u, s) == Found(v) <==>
                exists p :: 0 <= p < |list| && list[p].key.user == u && list[p].value == v
    {
      if Read(EntrySet(es), u, s) == Found(v) {
        var e :| Newest(EntrySet(es), u, s, e) && ResultOf(e) == Found(v);
        var i := NewestIsLive(es, u, s, e);
        PlaceInView(es, s, i);
      }
      if p :| 0 <= p < |list| && list[p].key.user == u && list[p].value == v {
        var i := ViewIsLive(es, s, |es|, p);
        LiveIsNewest(es, s, i);
      }
    }
  }

  lemma NewestIsLive(es: seq<Entry>, u: UserKey, s: nat, e: Entry) returns (i: nat)
    requires SortedEntries(es) && Newest(EntrySet(es), u, s, e) && e.key.kind.Value?
    ensures Live(es, s, i) && es[i] == e
  {
    assert Covers(EntrySet(es), u, s, e);
    i :| 0 <= i < |es| && es[i] == e;
    forall j | 0 <= j < i && es[j].key.user == u ensures es[j].key.sequence > s {
      assert Ahead(es[j].key, es[i].key);
      if es[j].key.sequence <= s {
        assert Covers(EntrySet(es), u, s, es[j]);
      }
    }
  }

  lemma LiveIsNewest(es: seq<Entry>, s: nat, i: nat)
    requires SortedEntries(es) && Live(es, s, i)
    ensures Read(EntrySet(es), es[i].key.user, s) == Found(es[i].value)
  {
    var S, u, e := EntrySet(es), es[i].key.user, es[i];
    assert Covers(S, u, s, e);
    forall x | Covers(S, u, s, x) ensures x.key.sequence <= e.key.sequence {
      var j :| 0 <= j < |es| && es[j] == x;
      assert i <= j;
    }
    forall a, b | a in S && b in S && a.key.user == b.key.user && a.key.sequence == b.key.sequence ensures a == b {
      var j :| 0 <= j < |es| && es[j] == a;
      var k :| 0 <= k < |es| && es[k] == b;
      assert j == k;
    }
    ReadIs(S, u, s, e);
  }

  /** `k` is the first live position at or after `from`, |es| if there is none. */
  ghost predicate NextLive(es: seq<Entry>, s: nat, from: nat, k: nat) {
    && from <= k <= |es|
    && (forall i :: from <= i < k ==> !Live(es, s, i))
    && (k < |es| ==> Live(es, s, k))
  }

  /** `k` is the last live position before `end`, |es| if there is none. */
  ghost predicate PreviousLive(es: seq<Entry>, s: nat, end: nat, k: nat) {
    && end <= |es|
    && (k < |es| ==> k < end && Live(es, s, k) && forall i :: k < i < end ==> !Live(es, s, i))
    && (k >= |es| ==> k == |es| && forall i :: 0 <= i < end ==> !Live(es, s, i))
  }

  lemma StepForward(es: seq<Entry>, s: nat, cur: nat, k: nat)
    requires Live(es, s, cur) && NextLive(es, s, cur + 1, k)
    ensures |View(es, s, k)| == |View(es, s, cur)| + 1
  {
    ViewPrefix(es, s, cur + 1, k);
  }

  lemma StepBackward(es: seq<Entry>, s: nat, end: nat, k: nat)
    requires PreviousLive(es, s, end, k)
    ensures k < |es| ==> |View(es, s, end)| == |View(es, s, k)| + 1
    ensures k == |es| ==> |View(es, s, end)| == 0
  {
    if k < |es| {
      ViewPrefix(es, s, k + 1, end);
    } else {
      ViewPrefix(es, s, 0, end);
    }
  }

  ghost predicate NoneLive(es: seq<Entry>, s: nat, from: int, end: int) {
    forall k :: from <= k < end ==> !Live(es, s, k)
  }

  datatype SavedKey = Cleared | Saved(user: UserKey)

  /** Scanning backward from `end`, `last` is the earliest visible entry seen so far, and it is a value;
      `q` is the next position to look at. */
  ghost predicate Candidate(es: seq<Entry>, s: nat, q: int, end: int, last: nat) {
    && q < last < end <= |es| && es[last].key.sequence <= s && es[last].key.kind.Value?
    && (forall k :: 0 <= k && q < k < last ==> es[k].key.sequence > s)
    && NoneLive(es, s, last + 1, end)
  }

  lemma SkipEntry(es: seq<Entry>, s: nat, q: nat, end: int, last: nat, kind: Kind)
    requires q < end <= |es| && es[q].key.sequence > s
    requires if kind.Deletion? then NoneLive(es, s, q + 1, end) else Candidate(es, s, q, end, last)
    ensures if kind.Deletion? then NoneLive(es, s, q, end) else Candidate(es, s, q - 1, end, last)
  {
  }

  /** A visible entry of the same user key, or any after a deletion, replaces the candidate. */
  lemma TakeEntry(es: seq<Entry>, s: nat, q: nat, end: int, last: nat, kind: Kind)
    requires SortedEntries(es) && q < end <= |es| && es[q].key.sequence <= s
    requires if kind.Deletion? then NoneLive(es, s, q + 1, end)
              else Candidate(es, s, q, end, last) && es[q].key.user >= es[last].key.user
    ensures if es[q].key.kind.Deletion? then NoneLive(es, s, q, end) else Candidate(es, s, q - 1, end, q)
  {
    if kind.Value? {
      assert Ahead(es[q].key, es[last].key);
      assert !Live(es, s, last);
    }
  }

  /** A backward scan from `end` has come to `q`; the latest entry it took is of this kind. */
  ghost predicate Backing(es: seq<Entry>, s: nat, q: int, end: int, last: nat, kind: Kind, saved: SavedKey,
                          value: string)
  {
    if kind.Deletion? then NoneLive(es, s, q + 1, end)
    else Candidate(es, s, q, end, last) && saved == Saved(es[last].key.user) && value == es[last].value
  }

  lemma BackingSkips(es: seq<Entry>, s: nat, q: nat, end: int, last: nat, kind: Kind, saved: SavedKey, value: string)
    requires Backing(es, s, q, end, last, kind, saved, value) && q < end <= |es| && es[q].key.sequence > s
    ensures Backing(es, s, q - 1, end, last, kind, saved, value)
  {
    SkipEntry(es, s, q, end, last, kind);
  }

  lemma BackingTakes(es: seq<Entry>, s: nat, q: nat, end: int, last: nat, kind: Kind, saved: SavedKey, value: string)
    requires SortedEntries(es) && Backing(es, s, q, end, last, kind, saved, value) && q < end <= |es|
    requires es[q].key.sequence <= s
    requires kind.Value? ==> saved.Saved? && es[q].key.user >= saved.user
    ensures es[q].key.kind.Deletion? ==> Backing(es, s, q - 1, end, last, Deletion, Cleared, "")
    ensures es[q].key.kind.Value? ==> Backing(es, s, q - 1, end, q, Value, Saved(es[q].key.user), es[q].value)
  {
    TakeEntry(es, s, q, end, last, kind);
  }

  lemma BackingStands(es: seq<Entry>, s: nat, q: int, end: int, last: nat, kind: Kind, saved: SavedKey, value: string)
    requires Backing(es, s, q, end, last, kind, saved, value) && end <= |es|
    ensures kind.Value? ==> last < |es| && saved == Saved(es[last].key.user) && value == es[last].value
  {
  }

  lemma BackingEnds(es: seq<Entry>, s: nat, q: int, end: nat, last: nat, kind: Kind, saved: SavedKey, value: string)
    requires SortedEntries(es) && Backing(es, s, q, end, last, kind, saved, value) && -1 <= q < end <= |es|
    requires q >= 0 ==> kind.Value? && saved.Saved? && es[q].key.user < saved.user
    ensures PreviousLive(es, s, end, if kind.Deletion? then |es| else last)
    ensures kind.Value? ==>
              && Live(es, s, last) && q < last && saved == Saved(es[last].key.user) && value == es[last].value
              && forall k :: 0 <= k && q < k < last ==> es[k].key.sequence > s
  {
    if kind.Deletion? {
      NothingFound(es, s, q + 1, end);
    } else {
      CandidateIsLive(es, s, q, end, last);
    }
  }

  lemma BackingBegins(es: seq<Entry>, s: nat, end: int, saved: SavedKey, value: string)
    ensures NoneLive(es, s, end, end) && Backing(es, s, end - 1, end, 0, Deletion, saved, value)
  {
  }

  lemma NothingFound(es: seq<Entry>, s: nat, from: int, end: nat)
    requires NoneLive(es, s, from, end) && from <= 0 && end <= |es|
    ensures PreviousLive(es, s, end, |es|)
  {
  }

  lemma CandidateIsLive(es: seq<Entry>, s: nat, q: int, end: int, last: nat)
    requires SortedEntries(es) && Candidate(es, s, q, end, last)
    requires q >= 0 ==> es[q].key.user < es[last].key.user
    ensures PreviousLive(es, s, end, last) && Live(es, s, last)
    ensures q < last && forall k :: 0 <= k && q < k < last ==> es[k].key.sequence > s
  {
    assert forall j :: 0 <= j < q ==> Ahead(es[j].key, es[q].key);
  }

  /** Entries skipped on the way back are not live. */
  lemma NoneBefore(es: seq<Entry>, s: nat, from: int, was: nat)
    requires SortedEntries(es) && Live(es, s, was) && 0 <= from
    requires forall k :: from <= k < was ==> es[k].key.user == es[was].key.user || es[k].key.sequence > s
    ensures NoneLive(es, s, from, was)
  {
  }

  lemma SamePlace(es: seq<Entry>, s: nat, end: nat, was: nat, k: nat)
    requires PreviousLive(es, s, end, k) && end <= was <= |es| && NoneLive(es, s, end, was)
    ensures PreviousLive(es, s, was, k)
  {
  }

  /** A live position that separates user keys at `target` separates the visible list there too. */
  lemma SplitView(es: seq<Entry>, s: nat, target: UserKey, cur: nat)
    requires cur <= |es|
    requires forall k :: Live(es, s, k) ==> (es[k].key.user < target <==> k < cur)
    ensures forall p :: 0 <= p < |Visible(es, s)| ==> (Visible(es, s)[p].key.user < target <==> p < |View(es, s, cur)|)
  {
    forall p | 0 <= p < |Visible(es, s)| ensures Visible(es, s)[p].key.user < target <==> p < |View(es, s, cur)| {
      var i := ViewIsLive(es, s, |es|, p);
      if i < cur {
        ViewPrefix(es, s, i + 1, cur);
      } else {
        ViewPrefix(es, s, cur, i);
      }
    }
  }

  /** Where a forward scan may start: with `skip`, entries of the saved user key are to be passed over, and no visible
      entry ahead is of an earlier one; the visible entries behind are done with. */
  ghost predicate ScanStart(es: seq<Entry>, s: nat, start: nat, skip: bool, saved: SavedKey) {
    && start <= |es| && (skip ==> saved.Saved?)
    && (skip ==> forall j :: start <= j < |es| && es[j].key.sequence <= s ==> es[j].key.user >= saved.user)
    && (forall j :: 0 <= j < start && es[j].key.sequence <= s ==>
          (skip && es[j].key.user <= saved.user) || (start < |es| ==> es[j].key.user < es[start].key.user))
  }

  /** A forward scan from `start` has come to `at` and found nothing; `saved` is the user key being skipped. */
  ghost predicate Scanning(es: seq<Entry>, s: nat, start: nat, at: nat, skip: bool, skip0: SavedKey, skipping: bool,
                           saved: SavedKey)
  {
    && ScanStart(es, s, start, skip, skip0)
    && start <= at <= |es| && (skip ==> skipping) && (skipping ==> saved.Saved?) && (skip ==> saved.user >= skip0.user)
    && (skipping && !(skip && saved == skip0) ==>
          exists j :: start <= j < at && es[j].key.user == saved.user && es[j].key.sequence <= s)
    && (forall j :: start <= j < at && es[j].key.sequence <= s ==> skipping && es[j].key.user <= saved.user)
    && (forall k :: start <= k < at && Live(es, s, k) ==> skip && es[k].key.user <= skip0.user)
  }

  lemma ScanBegins(es: seq<Entry>, s: nat, start: nat, skip: bool, saved: SavedKey)
    requires ScanStart(es, s, start, skip, saved)
    ensures Scanning(es, s, start, start, skip, saved, skip, saved) && (skip ==> saved.Saved?)
  {
  }

  lemma ScanDeletion(es: seq<Entry>, s: nat, start: nat, at: nat, skip: bool, skip0: SavedKey, skipping: bool,
                     saved: SavedKey)
    requires SortedEntries(es) && Scanning(es, s, start, at, skip, skip0, skipping, saved) && at < |es|
    requires es[at].key.sequence <= s && es[at].key.kind.Deletion?
    ensures Scanning(es, s, start, at + 1, skip, skip0, true, Saved(es[at].key.user))
  {
    assert forall j :: start <= j < at ==> Ahead(es[j].key, es[at].key);
  }

  /** An entry too new for this reader, or one of the user key being skipped. */
  lemma ScanHidden(es: seq<Entry>, s: nat, start: nat, at: nat, skip: bool, skip0: SavedKey, skipping: bool,
                   saved: SavedKey)
    requires SortedEntries(es) && Scanning(es, s, start, at, skip, skip0, skipping, saved) && at < |es|
    requires es[at].key.sequence > s || (skipping && es[at].key.user <= saved.user)
    ensures Scanning(es, s, start, at + 1, skip, skip0, skipping, saved)
  {
    if es[at].key.sequence <= s && !(skip && saved == skip0) {
      var j :| start <= j < at && es[j].key.user == saved.user && es[j].key.sequence <= s;
      assert Ahead(es[j].key, es[at].key);
    }
  }

  lemma ScanFinds(es: seq<Entry>, s: nat, start: nat, at: nat, skip: bool, skip0: SavedKey, skipping: bool,
                  saved: SavedKey)
    requires SortedEntries(es) && Scanning(es, s, start, at, skip, skip0, skipping, saved) && at < |es|
    requires es[at].key.sequence <= s && es[at].key.kind.Value? && (skipping ==> es[at].key.user > saved.user)
    ensures Live(es, s, at) && (skip ==> es[at].key.user > skip0.user)
  {
    assert start < at ==> Ahead(es[start].key, es[at].key);
  }

  lemma ScanEnds(es: seq<Entry>, s: nat, start: nat, at: nat, skip: bool, skip0: SavedKey, skipping: bool,
                 saved: SavedKey)
    requires Scanning(es, s, start, at, skip, skip0, skipping, saved)
    ensures start <= at <= |es| && (skip ==> skip0.Saved?)
    ensures forall k :: start <= k < at && Live(es, s, k) ==> skip && es[k].key.user <= skip0.user
  {
  }

  /** Going on from a live entry: the scan starts at it, or before it among entries too new to be visible. */
  lemma ScanFromLive(es: seq<Entry>, s: nat, was: nat, start: nat)
    requires SortedEntries(es) && Live(es, s, was) && start <= was
    requires forall k :: start <= k < was ==> es[k].key.sequence > s
    requires start > 0 ==> es[start - 1].key.user < es[was].key.user || start == was
    ensures ScanStart(es, s, start, true, Saved(es[was].key.user))
  {
    forall j | start <= j < |es| && es[j].key.sequence <= s ensures es[j].key.user >= es[was].key.user {
      assert j == was || Ahead(es[was].key, es[j].key);
    }
    forall j | 0 <= j < start ensures es[j].key.user <= es[was].key.user {
      assert Ahead(es[j].key, es[was].key);
    }
  }

  lemma NextLiveIs(es: seq<Entry>, s: nat, was: nat, start: nat, k: nat)
    requires SortedEntries(es) && Live(es, s, was) && start <= was && start <= k <= |es|
    requires forall i :: start <= i < k && Live(es, s, i) ==> es[i].key.user <= es[was].key.user
    requires k < |es| ==> Live(es, s, k) && es[k].key.user > es[was].key.user
    ensures NextLive(es, s, was + 1, k)
  {
    assert k < was ==> Ahead(es[k].key, es[was].key);
    forall i | was < i < k ensures !Live(es, s, i) {
      assert Ahead(es[was].key, es[i].key);
    }
  }

  /** `DBIter` over a merging iterator.  `cur` is the merged position of the entry shown, |merged| when not valid. */
  class DBIter {
    const iter: MergingIterator
    const sequence: nat
    var forward: bool
    var valid: bool
    var savedKey: SavedKey
    var savedValue: string
    ghost var cur: nat

    /** When moving backward the inner iterator is before every entry for the saved key that could be visible.
        Entries too new for this reader may lie in between. */
    ghost predicate JustBefore(q: int)
      requires cur < |iter.merged| && q < |iter.merged|
      reads this
    {
      && q < cur
      && (forall k :: 0 <= k && q < k < cur ==> iter.merged[k].key.sequence > sequence)
      && (q >= 0 ==> iter.merged[q].key.user < iter.merged[cur].key.user)
    }

    ghost function InnerPosition(): int
      reads this, iter
    {
      if iter.at == |iter.merged| then -1 else iter.at
    }

    ghost predicate Inv()
      reads this, iter, iter.children
    {
      && iter.Inv() && SortedEntries(iter.merged)
      && cur <= |iter.merged|
      && (valid <==> cur < |iter.merged|)
      && (valid ==> Live(iter.merged, sequence, cur))
      && (valid && forward ==> iter.at == cur)
      && (valid && !forward ==>
            && savedKey == Saved(iter.merged[cur].key.user) && savedValue == iter.merged[cur].value
            && JustBefore(InnerPosition()))
    }

    /** The visible map this iterator walks over, and its position in it. */
    ghost function Map(): seq<Entry> {
      Visible(iter.merged, sequence)
    }

    ghost function Pos(): (p: nat)
      requires Inv()
      reads this, iter, iter.children
      ensures p <= |Map()| && (valid <==> p < |Map()|)
    {
      ViewPrefix(iter.merged, sequence, cur, |iter.merged|);
      if cur < |iter.merged| then
        PlaceInView(iter.merged, sequence, cur);
        |View(iter.merged, sequence, cur)|
      else |Map()|
    }

    constructor (iter: MergingIterator, sequence: nat)
      requires iter.Inv() && SortedEntries(iter.merged)
      ensures Inv() && this.iter == iter && this.sequence == sequence && !valid
    {
      this.iter := iter;
      this.sequence := sequence;
      forward, valid := true, false;
      savedKey, savedValue := Cleared, "";
      cur := |iter.merged|;
    }

    function Key(): (u: UserKey)
      requires Inv() && valid
      reads this, iter, iter.children
      ensures u == Map()[Pos()].key.user
    {
      PlaceInView(iter.merged, sequence, cur);
      if forward then iter.Item().key.user else savedKey.user
    }

    function Value(): (v: string)
      requires Inv() && valid
      reads this, iter, iter.children
      ensures v == Map()[Pos()].value
    {
      PlaceInView(iter.merged, sequence, cur);
      if forward then iter.Item().value else savedValue
    }

    /** `FindNextUserEntry`; `savedKey` plays the part of `*skip`, as in every call of the source. */
    method FindNextUserEntry(skip: bool)
      requires iter.Inv() && iter.Valid() && SortedEntries(iter.merged) && forward
      requires ScanStart(iter.merged, sequence, iter.at, skip, savedKey)
      modifies this, iter, iter.children
      ensures Inv() && forward
      ensures old(iter.at) <= cur
      ensures forall k :: old(iter.at) <= k < cur && Live(iter.merged, sequence, k) ==>
                skip && iter.merged[k].key.user <= old(savedKey).user
      ensures valid && skip ==> iter.merged[cur].key.user > old(savedKey).user
    {
      hide MergingIterator.Inv, View, SortedEntries, ScanStart, Scanning, Live;
      ghost var es, start, skip0 := iter.merged, iter.at, savedKey;
      var skipping := skip;
      ScanBegins(es, sequence, start, skip, savedKey);
      while true
        invariant iter.Inv() && iter.Valid() && forward
        invariant skipping ==> savedKey.Saved?
        invariant Scanning(es, sequence, start, iter.at, skip, skip0, skipping, savedKey)
        decreases |es| - iter.at
      {
        var ikey := iter.Item().key;
        if ikey.sequence <= sequence && ikey.kind.Deletion? {
          ScanDeletion(es, sequence, start, iter.at, skip, skip0, skipping, savedKey);
          savedKey := Saved(ikey.user);
          skipping := true;
        } else if ikey.sequence <= sequence && !(skipping && ikey.user <= savedKey.user) {
          ScanFinds(es, sequence, start, iter.at, skip, skip0, skipping, savedKey);
          ScanEnds(es, sequence, start, iter.at, skip, skip0, skipping, savedKey);
          valid, cur := true, iter.at;
          savedKey := Cleared;
          return;
        } else {
          ScanHidden(es, sequence, start, iter.at, skip, skip0, skipping, savedKey);
        }
        iter.Next();
        if !iter.Valid() {
          break;
        }
      }
      ScanEnds(es, sequence, start, |es|, skip, skip0, skipping, savedKey);
      savedKey := Cleared;
      valid, cur := false, |es|;
    }

    /** The loop of `FindPrevUserEntry`. */
    method ScanBack(ghost end: nat) returns (valueType: Kind, ghost last: nat)
      requires iter.Inv() && SortedEntries(iter.merged) && !forward && end == InnerPosition() + 1
      modifies this, iter, iter.children
      ensures iter.Inv() && !forward && InnerPosition() < end <= |iter.merged|
      ensures Backing(iter.merged, sequence, InnerPosition(), end, last, valueType, savedKey, savedValue)
      ensures InnerPosition() >= 0 ==>
                valueType.Value? && savedKey.Saved? && iter.merged[InnerPosition()].key.user < savedKey.user
    {
      hide MergingIterator.Inv, SortedEntries, Backing;
      ghost var es := iter.merged;
      last, valueType := 0, Deletion;
      BackingBegins(es, sequence, end, savedKey, savedValue);
      while iter.Valid()
        invariant iter.Inv() && !forward && InnerPosition() < end
        invariant Backing(es, sequence, InnerPosition(), end, last, valueType, savedKey, savedValue)
        decreases InnerPosition()
      {
        var ikey := iter.Item().key;
        BackingStands(es, sequence, iter.at, end, last, valueType, savedKey, savedValue);
        if ikey.sequence <= sequence {
          if !valueType.Deletion? && ikey.user < savedKey.user {
            return;
          }
          BackingTakes(es, sequence, iter.at, end, last, valueType, savedKey, savedValue);
          valueType := ikey.kind;
          if valueType.Deletion? {
            savedKey, savedValue := Cleared, "";
          } else {
            savedKey, savedValue := Saved(ikey.user), iter.Item().value;
            last := iter.at;
          }
        } else {
          BackingSkips(es, sequence, iter.at, end, last, valueType, savedKey, savedValue);
        }
        iter.Prev();
      }
    }

    /** `FindPrevUserEntry`: the last visible entry at or before the inner position. */
    method FindPrevUserEntry()
      requires iter.Inv() && SortedEntries(iter.merged) && !forward
      modifies this, iter, iter.children
      ensures Inv() && PreviousLive(iter.merged, sequence, old(InnerPosition()) + 1, cur)
      ensures valid <==> !forward
    {
      hide MergingIterator.Inv, Live, SortedEntries, Backing, PreviousLive;
      ghost var es, end := iter.merged, InnerPosition() + 1;
      var valueType;
      ghost var last;
      valueType, last := ScanBack(end);
      BackingEnds(es, sequence, InnerPosition(), end, last, valueType, savedKey, savedValue);
      if valueType.Deletion? {
        valid, cur := false, |es|;
        savedKey, savedValue := Cleared, "";
        forward := true;
      } else {
        valid, cur := true, last;
      }
    }

    method Next()
      requires Inv() && valid
      modifies this, iter, iter.children
      ensures Inv() && Pos() == old(Pos()) + 1
    {
      hide MergingIterator.Inv, SortedEntries, ScanStart, View;
      ghost var es, was := iter.merged, cur;
      if !forward {
        forward := true;
        if !iter.Valid() {
          iter.SeekToFirst();
        } else {
          iter.Next();
        }
        // The entries of the saved key still lie ahead, so the inner iterator is valid here.
        assert iter.Valid() && iter.at <= was;
      } else {
        savedKey := Saved(iter.Item().key.user);
      }
      ghost var start := iter.at;
      ScanFromLive(es, sequence, was, start);
      FindNextUserEntry(true);
      NextLiveIs(es, sequence, was, start, cur);
      StepForward(es, sequence, was, cur);
    }

    method Prev()
      requires Inv() && valid
      modifies this, iter, iter.children
      ensures Inv()
      ensures Pos() == if old(Pos()) == 0 then |Map()| else old(Pos()) - 1
    {
      hide MergingIterator.Inv;
      ghost var es, was := iter.merged, cur;
      if forward {
        savedKey := Saved(iter.Item().key.user);
        while true
          invariant iter.Inv() && iter.Valid() && iter.at <= was && forward && valid && cur == was
          invariant savedKey == Saved(es[was].key.user)
          invariant forall k :: iter.at <= k <= was ==> es[k].key.user == es[was].key.user
          decreases iter.at
        {
          iter.Prev();
          if !iter.Valid() {
            valid, cur := false, |es|;
            savedKey, savedValue := Cleared, "";
            NoneBefore(es, sequence, 0, was);
            StepBackward(es, sequence, was, cur);
            return;
          }
          if iter.Item().key.user < savedKey.user {
            break;
          }
          assert Ahead(es[iter.at].key, es[was].key);
        }
        forward := false;
      }
      ghost var end := InnerPosition() + 1;
      NoneBefore(es, sequence, end, was);
      FindPrevUserEntry();
      SamePlace(es, sequence, end, was, cur);
      StepBackward(es, sequence, was, cur);
    }

    method Seek(target: UserKey)
      requires Inv()
      modifies this, iter, iter.children
      ensures Inv()
      ensures forall p :: 0 <= p < |Map()| ==> (Map()[p].key.user < target <==> p < Pos())
    {
      hide MergingIterator.Inv;
      ghost var es := iter.merged;
      forward := true;
      savedKey, savedValue := Cleared, "";
      iter.Seek(SeekKey(target, sequence));
      ghost var start := iter.at;
      if iter.Valid() {
        SeekKeySplits(target, sequence, es[start].key);
        forall j | 0 <= j < start && es[j].key.sequence <= sequence ensures es[j].key.user < es[start].key.user {
          SeekKeySplits(target, sequence, es[j].key);
        }
        FindNextUserEntry(false);
      } else {
        valid, cur := false, |es|;
      }
      forall k | Live(es, sequence, k) ensures es[k].key.user < target <==> k < cur {
        SeekKeySplits(target, sequence, es[k].key);
      }
      SplitView(es, sequence, target, cur);
    }

    method SeekToFirst()
      requires Inv()
      modifies this, iter, iter.children
      ensures Inv() && Pos() == 0
    {
      hide MergingIterator.Inv;
      ghost var es := iter.merged;
      forward := true;
      savedValue := "";
      iter.SeekToFirst();
      if iter.Valid() {
        FindNextUserEntry(false);
      } else {
        valid, cur := false, |es|;
      }
      ViewPrefix(es, sequence, 0, cur);
    }

    method SeekToLast()
      requires Inv()
      modifies this, iter, iter.children
      ensures Inv()
      ensures Pos() == if Map() == [] then 0 else |Map()| - 1
    {
      hide MergingIterator.Inv;
      forward := false;
      savedValue := "";
      iter.SeekToLast();
      FindPrevUserEntry();
      StepBackward(iter.merged, sequence, |iter.merged|, cur);
    }
  }
}
