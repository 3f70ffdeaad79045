/** The meaning of a store: one flat multi-version map.

A store is a set of entries.  Reading user key `u` at sequence number `s` yields the entry for `u`
with the largest sequence number not above `s`; a deletion entry hides everything older. */
module MultiVersion {
  import opened InternalKeys

  datatype Lookup = Found(value: string) | Deleted | Missing

  /** The value a client sees: deletions and absent keys look alike. */
  function Seen(r: Lookup): Lookup {
    if r.Found? then r else Missing
  }

  ghost function EntrySet(es: seq<Entry>): set<Entry> {
    set e | e in es
  }

  ghost predicate Unique(S: set<Entry>) {
    forall a, b :: a in S && b in S && a.key.user == b.key.user && a.key.sequence == b.key.sequence ==> a == b
  }

  ghost predicate Covers(S: set<Entry>, u: UserKey, s: nat, e: Entry) {
    e in S && e.key.user == u && e.key.sequence <= s
  }

  /** `e` is what a read of `u` at `s` must find. */
  ghost predicate Newest(S: set<Entry>, u: UserKey, s: nat, e: Entry) {
    && Covers(S, u, s, e)
    && forall x :: Covers(S, u, s, x) ==> x.key.sequence <= e.key.sequence
  }

  function ResultOf(e: Entry): Lookup {
    if e.key.kind.Value? then Found(e.value) else Deleted
  }

  ghost function Read(S: set<Entry>, u: UserKey, s: nat): Lookup {
    if exists e :: Newest(S, u, s, e) then
      var e :| Newest(S, u, s, e);
      ResultOf(e)
    else
      Missing
  }

  lemma ReadIs(S: set<Entry>, u: UserKey, s: nat, e: Entry)
    requires Unique(S)
    requires Newest(S, u, s, e)
    ensures Read(S, u, s) == ResultOf(e)
  {
    var x :| Newest(S, u, s, x) && Read(S, u, s) == ResultOf(x);
    assert Newest(S, u, s, x);
    assert Covers(S, u, s, x);
  }

  lemma ReadMissing(S: set<Entry>, u: UserKey, s: nat)
    requires forall e :: !Covers(S, u, s, e)
    ensures Read(S, u, s) == Missing
  {
  }

  /** Every nonempty candidate set has a newest member. */
  lemma {:induction false} NewestExists(S: set<Entry>, u: UserKey, s: nat, witness0: Entry) returns (e: Entry)
    requires Covers(S, u, s, witness0)
    ensures Newest(S, u, s, e)
    decreases S
  {
    var rest := S - {witness0};
    if x :| Covers(rest, u, s, x) {
      var y := NewestExists(rest, u, s, x);
      e := if y.key.sequence >= witness0.key.sequence then y else witness0;
      forall z | Covers(S, u, s, z) ensures z.key.sequence <= e.key.sequence {
        assert z == witness0 || Covers(rest, u, s, z);
      }
    } else {
      e := witness0;
      forall z | Covers(S, u, s, z) ensures z.key.sequence <= e.key.sequence {
        assert z == witness0 || Covers(rest, u, s, z);
      }
    }
  }

  ghost predicate NewerThan(N: set<Entry>, S: set<Entry>) {
    forall n, x :: n in N && x in S ==> n.key.sequence > x.key.sequence
  }

  /** What a read finds in a store with newer entries on top. */
  lemma ReadOnTop(S: set<Entry>, N: set<Entry>, u: UserKey, s: nat)
    requires Unique(S + N) && NewerThan(N, S)
    ensures Read(S + N, u, s) == if exists n :: Covers(N, u, s, n) then Read(N, u, s) else Read(S, u, s)
  {
    assert forall x :: Covers(S + N, u, s, x) <==> Covers(S, u, s, x) || Covers(N, u, s, x);
    if n :| Covers(N, u, s, n) {
      var e := NewestExists(N, u, s, n);
      assert Newest(S + N, u, s, e);
      ReadIs(S + N, u, s, e);
      ReadIs(N, u, s, e);
    } else if x :| Covers(S, u, s, x) {
      var e := NewestExists(S, u, s, x);
      assert Newest(S + N, u, s, e);
      ReadIs(S + N, u, s, e);
      ReadIs(S, u, s, e);
    } else {
      ReadMissing(S + N, u, s);
      ReadMissing(S, u, s);
    }
  }

  /** Stores that agree on a read still agree with the same newer entries on top. */
  lemma AgreeOnTop(S: set<Entry>, T: set<Entry>, N: set<Entry>, u: UserKey, s: nat)
    requires Unique(S + N) && Unique(T + N) && NewerThan(N, S) && NewerThan(N, T)
    requires Seen(Read(S, u, s)) == Seen(Read(T, u, s))
    ensures Seen(Read(S + N, u, s)) == Seen(Read(T + N, u, s))
  {
    ReadOnTop(S, N, u, s);
    ReadOnTop(T, N, u, s);
  }
}
