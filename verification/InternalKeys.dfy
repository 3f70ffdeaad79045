/** Internal keys and their order (db/dbformat.h, db/dbformat.cc).

User keys are ordered by an arbitrary comparator.  Every countable total order embeds in the
order of the reals, so `real` stands for a user key under any comparator. */
module InternalKeys {

  type UserKey = real

  /** The low eight bits of a packed tag: kTypeDeletion = 0, kTypeValue = 1. */
  datatype Kind = Deletion | Value

  datatype InternalKey = InternalKey(user: UserKey, sequence: nat, kind: Kind)

  datatype Entry = Entry(key: InternalKey, value: string)

  /** Sequence numbers share 64 bits with an eight-bit kind. */
  const MAX_SEQUENCE: nat := 0x100_0000_0000_0000 - 1

  function Pack(sequence: nat, kind: Kind): nat {
    sequence * 256 + if kind.Value? then 1 else 0
  }

  /** `InternalKeyComparator::Compare(a, b) < 0`: user keys ascending, packed tags descending. */
  predicate Before(a: InternalKey, b: InternalKey) {
    || a.user < b.user
    || (a.user == b.user && Pack(a.sequence, a.kind) > Pack(b.sequence, b.kind))
  }

  predicate AtOrBefore(a: InternalKey, b: InternalKey) {
    a == b || Before(a, b)
  }

  /** The key that `LookupKey` and the range checks seek with: it precedes or equals every entry
      for `user` whose sequence number is at most `sequence`, and follows all others for `user`. */
  function SeekKey(user: UserKey, sequence: nat): InternalKey {
    InternalKey(user, sequence, Value)
  }

  /** Strict order by user key and then by decreasing sequence number.  The store never holds two
      entries with the same user key and sequence number, so stored keys are ordered this way. */
  predicate Ahead(a: InternalKey, b: InternalKey) {
    a.user < b.user || (a.user == b.user && a.sequence > b.sequence)
  }

  /** The comparator is a strict total order. */
  lemma BeforeIsStrictTotalOrder(a: InternalKey, b: InternalKey, c: InternalKey)
    ensures !Before(a, a)
    ensures Before(a, b) && Before(b, c) ==> Before(a, c)
    ensures Before(a, b) || a == b || Before(b, a)
    ensures !(Before(a, b) && Before(b, a))
  {
    if a.user == b.user && Pack(a.sequence, a.kind) == Pack(b.sequence, b.kind) {
      assert a.sequence == b.sequence && a.kind == b.kind;
    }
  }

  /** A seek key splits the entries of its user key exactly at its sequence number. */
  lemma SeekKeySplits(user: UserKey, s: nat, k: InternalKey)
    ensures Before(k, SeekKey(user, s)) <==> k.user < user || (k.user == user && k.sequence > s)
    ensures AtOrBefore(SeekKey(user, s), k) <==> user < k.user || (k.user == user && k.sequence <= s)
  {
    if k.user == user && k.sequence == s && k.kind.Value? {
      assert k == SeekKey(user, s);
    }
  }

  predicate SortedEntries(es: seq<Entry>) {
    forall i, j :: 0 <= i < j < |es| ==> Ahead(es[i].key, es[j].key)
  }
}
