/** The Bloom filter (util/bloom.cc).  The array is a sequence of bits; the hash may be any function to 32 bits. */
module Bloom {
  import Coding
  import opened Separators

  type Hash = ByteKey -> nat

  /** The last byte of the filter holds the number of probes. */
  datatype Filter = Filter(bits: seq<bool>, probes: nat)

  /** Rotates right by 17 bits. */
  function Delta(h: nat): nat {
    (h / 0x2_0000 + h * 0x8000) % Coding.TWO_TO_32
  }

  /** The hash value of probe `j`. */
  function Probe(h: nat, j: nat): nat {
    if j == 0 then h % Coding.TWO_TO_32 else (Probe(h, j - 1) + Delta(h % Coding.TWO_TO_32)) % Coding.TWO_TO_32
  }

  /** The probes of one hash value: the bits rotated right by 17 are added each time. */
  lemma ProbeValues()
    ensures Probe(0x1234_5678, 0) == 0x1234_5678
    ensures Probe(0x1234_5678, 1) == 0x3d70_5f92
    ensures Probe(0x1234_5678, 2) == 0x68ac_68ac
    ensures Probe(0xffff_ffff, 1) == 0xffff_fffe
  {
    assert Delta(0x1234_5678) == 0x2b3c_091a;
    assert Delta(0xffff_ffff) == 0xffff_ffff;
    hide Delta;
    assert Probe(0x1234_5678, 0) == 0x1234_5678;
    assert Probe(0x1234_5678, 1) == 0x3d70_5f92;
    assert Probe(0xffff_ffff, 0) == 0xffff_ffff;
  }

  ghost predicate Matches(hash: Hash, key: ByteKey, f: Filter) {
    |f.bits| > 0 && forall j :: 0 <= j < f.probes ==> f.bits[Probe(hash(key), j) % |f.bits|]
  }

  /** Bit `p` is one that the key sets. */
  ghost predicate Probed(hash: Hash, key: ByteKey, probes: nat, size: nat, p: nat)
    requires size > 0
  {
    exists n: nat :: n < probes && Probe(hash(key), n) % size == p
  }

  ghost predicate ProbedByOne(hash: Hash, keys: seq<ByteKey>, probes: nat, size: nat, p: nat)
    requires size > 0
  {
    exists k :: 0 <= k < |keys| && Probed(hash, keys[k], probes, size, p)
  }

  lemma ProbedByMore(hash: Hash, keys: seq<ByteKey>, i: nat, probes: nat, size: nat)
    requires size > 0 && i < |keys|
    ensures forall p: nat :: ProbedByOne(hash, keys[..i], probes, size, p) || Probed(hash, keys[i], probes, size, p) ==>
              ProbedByOne(hash, keys[..i + 1], probes, size, p)
  {
    hide Probed;
    forall p: nat | ProbedByOne(hash, keys[..i], probes, size, p) || Probed(hash, keys[i], probes, size, p)
      ensures ProbedByOne(hash, keys[..i + 1], probes, size, p)
    {
      if Probed(hash, keys[i], probes, size, p) {
        assert keys[..i + 1][i] == keys[i];
      } else {
        var k :| 0 <= k < i && Probed(hash, keys[..i][k], probes, size, p);
        assert keys[..i + 1][k] == keys[..i][k];
      }
    }
  }

  /** `KeyMayMatch` */
  method KeyMayMatch(hash: Hash, key: ByteKey, f: Filter) returns (may: bool)
    ensures may <==> |f.bits| >= 8 && (f.probes > 30 || Matches(hash, key, f))
  {
    hide Probe, Delta;
    if |f.bits| < 8 {
      return false;
    }
    if f.probes > 30 {
      return true;
    }
    FirstProbe(hash(key));
    var h := hash(key) % Coding.TWO_TO_32;
    var delta := Delta(h);
    for j := 0 to f.probes
      invariant h == Probe(hash(key), j)
      invariant forall i :: 0 <= i < j ==> f.bits[Probe(hash(key), i) % |f.bits|]
    {
      if !f.bits[h % |f.bits|] {
        return false;
      }
      NextProbe(hash(key), j);
      h := (h + delta) % Coding.TWO_TO_32;
    }
    return true;
  }

  lemma FirstProbe(h: nat)
    ensures Probe(h, 0) == h % Coding.TWO_TO_32
  {
  }

  lemma NextProbe(h: nat, j: nat)
    ensures Probe(h, j + 1) == (Probe(h, j) + Delta(h % Coding.TWO_TO_32)) % Coding.TWO_TO_32
  {
  }

  /** `CreateFilter`: every key that went in matches, and no bit is set for anything else. */
  method CreateFilter(hash: Hash, keys: seq<ByteKey>, bitsPerKey: nat, probes: nat) returns (f: Filter)
    requires 1 <= probes <= 30
    ensures |f.bits| >= 64 && |f.bits| % 8 == 0 && f.probes == probes
    ensures |f.bits| - 8 < |keys| * bitsPerKey <= |f.bits| || (|f.bits| == 64 && |keys| * bitsPerKey < 64)
    ensures forall i :: 0 <= i < |keys| ==> Matches(hash, keys[i], f)
    ensures forall p :: 0 <= p < |f.bits| && f.bits[p] ==> ProbedByOne(hash, keys, probes, |f.bits|, p)
  {
    hide Probe, Delta, Matches, Probed;
    var bits := |keys| * bitsPerKey;
    if bits < 64 {
      bits := 64;
    }
    var bytes := (bits + 7) / 8;
    bits := bytes * 8;
    var table := seq(bits, _ => false);
    for i := 0 to |keys|
      invariant |table| == bits
      invariant forall k :: 0 <= k < i ==> Matches(hash, keys[k], Filter(table, probes))
      invariant forall p :: 0 <= p < bits && table[p] ==> ProbedByOne(hash, keys[..i], probes, bits, p)
    {
      ghost var before := table;
      table := AddKey(hash, keys[i], table, probes);
      forall k | 0 <= k < i ensures Matches(hash, keys[k], Filter(table, probes)) {
        MoreBitsMatch(hash, keys[k], before, table, probes);
      }
      ProbedByMore(hash, keys, i, probes, bits);
    }
    assert keys[..|keys|] == keys;
    f := Filter(table, probes);
  }

  /** Sets the bits of one key, found by double hashing. */
  method AddKey(hash: Hash, key: ByteKey, before: seq<bool>, probes: nat) returns (table: seq<bool>)
    requires |before| > 0
    ensures |table| == |before| && forall p :: 0 <= p < |before| && before[p] ==> table[p]
    ensures Matches(hash, key, Filter(table, probes))
    ensures forall p :: 0 <= p < |before| && table[p] && !before[p] ==> Probed(hash, key, probes, |before|, p)
  {
    hide Probe, Delta;
    FirstProbe(hash(key));
    var h := hash(key) % Coding.TWO_TO_32;
    var delta := Delta(h);
    table := before;
    for j := 0 to probes
      invariant |table| == |before| && h == Probe(hash(key), j)
      invariant forall p :: 0 <= p < |before| && before[p] ==> table[p]
      invariant forall n :: 0 <= n < j ==> table[Probe(hash(key), n) % |before|]
      invariant forall p :: 0 <= p < |before| && table[p] && !before[p] ==>
                exists n: nat :: n < j && Probe(hash(key), n) % |before| == p
    {
      table := table[h % |before| := true];
      NextProbe(hash(key), j);
      h := (h + delta) % Coding.TWO_TO_32;
    }
  }

  /** Setting more bits loses no match. */
  lemma MoreBitsMatch(hash: Hash, key: ByteKey, before: seq<bool>, table: seq<bool>, probes: nat)
    requires Matches(hash, key, Filter(before, probes)) && |table| == |before|
    requires forall p :: 0 <= p < |before| && before[p] ==> table[p]
    ensures Matches(hash, key, Filter(table, probes))
  {
    hide Probe;
  }
}
