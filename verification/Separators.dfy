/** Bytewise keys and shortened separators (util/comparator.cc, db/dbformat.cc). */
module Separators {

  type Char = n: nat | n < 256
  type ByteKey = seq<Char>

  /** Bytewise order. */
  predicate Less(a: ByteKey, b: ByteKey) {
    b != [] && (a == [] || a[0] < b[0] || (a[0] == b[0] && Less(a[1..], b[1..])))
  }

  lemma {:induction false} LessIsTransitive(a: ByteKey, b: ByteKey, c: ByteKey)
    requires Less(a, b) && Less(b, c)
    ensures Less(a, c)
  {
    if a != [] && a[0] == b[0] && b[0] == c[0] {
      LessIsTransitive(a[1..], b[1..], c[1..]);
    }
  }

  lemma {:induction false} LessIsStrict(a: ByteKey)
    ensures !Less(a, a)
  {
    if a != [] {
      LessIsStrict(a[1..]);
    }
  }

  lemma {:induction false} LessIsTotal(a: ByteKey, b: ByteKey)
    ensures a == b || Less(a, b) || Less(b, a)
  {
    if a != [] && b != [] && a[0] == b[0] {
      LessIsTotal(a[1..], b[1..]);
      if a[1..] == b[1..] {
        assert a == [a[0]] + a[1..] && b == [b[0]] + b[1..];
      }
    }
  }

  /** The first difference decides. */
  lemma {:induction false} FirstDifference(a: ByteKey, b: ByteKey, d: nat)
    requires d < |a| && d < |b| && a[..d] == b[..d] && a[d] < b[d]
    ensures Less(a, b)
  {
    if d > 0 {
      assert a[0] == a[..d][0] == b[..d][0] == b[0];
      assert a[1..][..d - 1] == a[..d][1..] && b[1..][..d - 1] == b[..d][1..];
      FirstDifference(a[1..], b[1..], d - 1);
    }
  }

  ghost predicate DifferFirstAt(a: ByteKey, b: ByteKey, d: nat) {
    d < |a| && d < |b| && a[..d] == b[..d] && a[d] != b[d]
  }

  /** The key is cut after the first byte that differs, which grows by one, if that is still before the limit. */
  ghost predicate IsSeparator(start: ByteKey, limit: ByteKey, r: ByteKey) {
    && ((forall d: nat :: !DifferFirstAt(start, limit, d)) ==> r == start)
    && (forall d: nat :: DifferFirstAt(start, limit, d) ==>
          r == if start[d] < 255 && start[d] + 1 < limit[d] then start[..d] + [start[d] + 1] else start)
  }

  /** The key is cut after the first byte that can grow by one. */
  ghost predicate IsSuccessor(key: ByteKey, r: ByteKey) {
    && ((forall i :: 0 <= i < |key| ==> key[i] == 255) ==> r == key)
    && (forall i :: 0 <= i < |key| && key[i] < 255 && (forall j :: 0 <= j < i ==> key[j] == 255) ==>
          r == key[..i] + [key[i] + 1])
  }

  /** `BytewiseComparatorImpl::FindShortestSeparator`: leaves the key alone or finds one between the two. */
  method FindShortestSeparator(start: ByteKey, limit: ByteKey) returns (r: ByteKey)
    ensures r == start || (Less(start, r) && Less(r, limit))
    ensures |r| <= |start| && IsSeparator(start, limit, r)
  {
    var minLength := if |start| < |limit| then |start| else |limit|;
    var d := 0;
    while d < minLength && start[d] == limit[d]
      invariant d <= minLength && start[..d] == limit[..d]
    {
      d := d + 1;
    }
    r := start;
    SeparatesAt(start, limit, d);
    if d < minLength {
      var diffByte := start[d];
      if diffByte < 0xff && diffByte + 1 < limit[d] {
        r := start[..d] + [diffByte + 1];
        FirstDifference(start, r, d);
        FirstDifference(r, limit, d);
      }
    }
  }

  lemma SamePrefix(a: ByteKey, b: ByteKey, n: nat)
    requires n <= |a| && n <= |b| && a[..n] == b[..n]
    ensures forall i :: 0 <= i < n ==> a[i] == b[i]
  {
    assert forall i :: 0 <= i < n ==> a[i] == a[..n][i] && b[i] == b[..n][i];
  }

  /** Where the loop of `FindShortestSeparator` stops. */
  lemma SeparatesAt(start: ByteKey, limit: ByteKey, d: nat)
    requires d <= |start| && d <= |limit| && start[..d] == limit[..d]
    requires d < |start| && d < |limit| ==> start[d] != limit[d]
    ensures d == |start| || d == |limit| ==> IsSeparator(start, limit, start)
    ensures d < |start| && d < |limit| ==>
              IsSeparator(start, limit, if start[d] < 255 && start[d] + 1 < limit[d] then start[..d] + [start[d] + 1]
                          else start)
  {
    SamePrefix(start, limit, d);
    forall c: nat | DifferFirstAt(start, limit, c) ensures d < |start| && d < |limit| && c == d {
      SamePrefix(start, limit, c);
    }
    assert d < |start| && d < |limit| ==> DifferFirstAt(start, limit, d);
  }

  /** `BytewiseComparatorImpl::FindShortSuccessor` */
  method FindShortSuccessor(key: ByteKey) returns (r: ByteKey)
    ensures r == key || Less(key, r)
    ensures |r| <= |key| && IsSuccessor(key, r)
  {
    var i := 0;
    while i < |key|
      invariant i <= |key| && forall j :: 0 <= j < i ==> key[j] == 255
    {
      var b := key[i];
      if b != 0xff {
        r := key[..i] + [b + 1];
        FirstDifference(key, r, i);
        return;
      }
      i := i + 1;
    }
    return key;
  }

  // ----- internal keys -----

  /** The tag is the sequence number and the type, packed into one number. */
  datatype PackedKey = PackedKey(user: ByteKey, tag: nat)

  /** `PackSequenceAndType(kMaxSequenceNumber, kValueTypeForSeek)` */
  const MAX_TAG := 0xff_ffff_ffff_ffff * 256 + 1

  /** User keys ascend; for one user key, numbers descend. */
  predicate PackedBefore(a: PackedKey, b: PackedKey) {
    Less(a.user, b.user) || (a.user == b.user && a.tag > b.tag)
  }

  predicate PackedAtOrBefore(a: PackedKey, b: PackedKey) {
    a == b || PackedBefore(a, b)
  }

  lemma BeforeIsTransitive(a: PackedKey, b: PackedKey, c: PackedKey)
    requires PackedBefore(a, b) && PackedBefore(b, c)
    ensures PackedBefore(a, c)
  {
    if Less(a.user, b.user) && Less(b.user, c.user) {
      LessIsTransitive(a.user, b.user, c.user);
    }
  }

  lemma BeforeIsTotal(a: PackedKey, b: PackedKey)
    ensures a == b || PackedBefore(a, b) || PackedBefore(b, a)
    ensures !(PackedBefore(a, b) && PackedAtOrBefore(b, a))
  {
    LessIsTotal(a.user, b.user);
    LessIsStrict(a.user);
    if PackedBefore(a, b) && PackedBefore(b, a) {
      BeforeIsTransitive(a, b, a);
    }
  }

  /** The key itself, or the first possible key of a user key strictly between. */
  ghost predicate Separates(start: PackedKey, r: PackedKey, limit: PackedKey) {
    r == start || (Less(start.user, r.user) && Less(r.user, limit.user) && r.tag == MAX_TAG)
  }

  /** A later and shorter user key takes the place of the key, with the largest tag. */
  function Shorter(key: PackedKey, user: ByteKey): PackedKey {
    if |user| < |key.user| && Less(key.user, user) then PackedKey(user, MAX_TAG) else key
  }

  /** `InternalKeyComparator::FindShortestSeparator` */
  method FindInternalSeparator(start: PackedKey, limit: PackedKey) returns (r: PackedKey)
    ensures Separates(start, r, limit)
    ensures exists tmp :: IsSeparator(start.user, limit.user, tmp) && r == Shorter(start, tmp)
  {
    var tmp := FindShortestSeparator(start.user, limit.user);
    r := start;
    if |tmp| < |start.user| && Less(start.user, tmp) {
      LessIsStrict(start.user);
      r := PackedKey(tmp, MAX_TAG);
    }
  }

  /** `InternalKeyComparator::FindShortSuccessor` */
  method FindInternalSuccessor(key: PackedKey) returns (r: PackedKey)
    ensures PackedAtOrBefore(key, r)
    ensures exists tmp :: IsSuccessor(key.user, tmp) && r == Shorter(key, tmp)
  {
    var tmp := FindShortSuccessor(key.user);
    r := key;
    if |tmp| < |key.user| && Less(key.user, tmp) {
      r := PackedKey(tmp, MAX_TAG);
    }
  }

  /** A separator is at or after the last key of its block and before the first key of the next; and a lookup key at or
      before the separator has another user key than that next key, unless it is at or before the last key. */
  lemma SeparatorIsSafe(start: PackedKey, r: PackedKey, limit: PackedKey, k: PackedKey)
    requires PackedBefore(start, limit) && Separates(start, r, limit)
    ensures PackedAtOrBefore(start, r) && PackedBefore(r, limit)
    ensures PackedAtOrBefore(k, r) && PackedBefore(start, k) ==> k.user != limit.user
  {
    if PackedAtOrBefore(k, r) && PackedBefore(start, k) && r != start {
      LessIsStrict(limit.user);
      if k.user == limit.user && Less(k.user, r.user) {
        LessIsTransitive(k.user, r.user, limit.user);
      }
    }
    BeforeIsTotal(k, start);
  }
}
