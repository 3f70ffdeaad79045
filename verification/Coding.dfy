/** Fixed-length, variable-length and length-prefixed encodings (util/coding.cc, util/coding.h). */
module Coding {
  import opened Bytes

  datatype Parsed<T> = NotParsed | Parsed(value: T, rest: seq<byte>)

  const TWO_TO_32 := 0x1_0000_0000
  const TWO_TO_64 := 0x1_0000_0000_0000_0000

  // ----- fixed-length numbers, lowest byte first -----

  function Fixed(n: nat, k: nat): (s: seq<byte>)
    ensures |s| == k
  {
    if k == 0 then [] else [ByteOf(n % 256)] + Fixed(n / 256, k - 1)
  }

  function Unfixed(s: seq<byte>): nat {
    if s == [] then 0 else NatOf(s[0]) + 256 * Unfixed(s[1..])
  }

  function Power256(k: nat): (r: nat)
    ensures r > 0
  {
    if k == 0 then 1 else 256 * Power256(k - 1)
  }

  lemma {:induction false} FixedRoundTrip(n: nat, k: nat)
    requires n < Power256(k)
    ensures Unfixed(Fixed(n, k)) == n
  {
    hide ByteOf, NatOf;
    if k > 0 {
      ByteRoundTrip(n % 256);
      FixedRoundTrip(n / 256, k - 1);
    }
  }

  lemma PowersOf256()
    ensures Power256(4) == TWO_TO_32 && Power256(8) == TWO_TO_64
  {
    assert Power256(2) == 0x1_0000;
    assert Power256(6) == 0x1_0000_0000_0000;
  }

  // ----- varints -----

  /** Seven bits to a byte, the lowest first; the top bit says that more bytes follow. */
  function Varint(v: nat): seq<byte> {
    if v < 128 then [ByteOf(v)] else [ByteOf(128 + v % 128)] + Varint(v / 128)
  }

  /** The number that `count` bytes or fewer hold. */
  function ParseVarint(input: seq<byte>, count: nat): Parsed<nat> {
    if count == 0 || input == [] then NotParsed else
      NatOfBelow(input[0]);
      var b := NatOf(input[0]);
      if b < 128 then Parsed(b, input[1..]) else
        match ParseVarint(input[1..], count - 1)
        case NotParsed => NotParsed
        case Parsed(v, rest) => Parsed(b - 128 + 128 * v, rest)
  }

  lemma {:induction false} VarintShrinks(input: seq<byte>, count: nat)
    ensures var r := ParseVarint(input, count); r.Parsed? ==> |r.rest| < |input|
  {
    hide NatOf;
    if count > 0 && input != [] {
      VarintShrinks(input[1..], count - 1);
    }
  }

  function Power128(k: nat): (r: nat)
    ensures r > 0
  {
    if k == 0 then 1 else 128 * Power128(k - 1)
  }

  lemma {:induction false} VarintRoundTrip(v: nat, rest: seq<byte>, count: nat)
    requires 0 < count && v < Power128(count)
    ensures ParseVarint(Varint(v) + rest, count) == Parsed(v, rest)
  {
    hide ByteOf, NatOf;
    var s := Varint(v) + rest;
    if v < 128 {
      ByteRoundTrip(v);
      assert s[1..] == rest;
    } else {
      ByteRoundTrip(128 + v % 128);
      assert s[1..] == Varint(v / 128) + rest;
      VarintRoundTrip(v / 128, rest, count - 1);
    }
  }

  lemma PowersOf128()
    ensures Power128(5) == 0x8_0000_0000 && Power128(10) == 0x40_0000_0000_0000_0000
  {
    assert Power128(3) == 0x20_0000;
    assert Power128(7) == 0x2_0000_0000_0000;
  }

  /** What `GetVarint32` reads: at most 5 bytes, bits above 32 dropped. */
  function ParseVarint32(input: seq<byte>): Parsed<nat> {
    match ParseVarint(input, 5)
    case NotParsed => NotParsed
    case Parsed(v, rest) => Parsed(v % TWO_TO_32, rest)
  }

  /** What `GetVarint64` reads: at most 10 bytes, bits above 64 dropped. */
  function ParseVarint64(input: seq<byte>): Parsed<nat> {
    match ParseVarint(input, 10)
    case NotParsed => NotParsed
    case Parsed(v, rest) => Parsed(v % TWO_TO_64, rest)
  }

  lemma Varint32RoundTrip(v: nat, rest: seq<byte>)
    requires v < TWO_TO_32
    ensures ParseVarint32(Varint(v) + rest) == Parsed(v, rest)
  {
    hide Varint, ParseVarint, Power128;
    PowersOf128();
    VarintRoundTrip(v, rest, 5);
  }

  lemma Varint64RoundTrip(v: nat, rest: seq<byte>)
    requires v < TWO_TO_64
    ensures ParseVarint64(Varint(v) + rest) == Parsed(v, rest)
  {
    hide Varint, ParseVarint, Power128;
    PowersOf128();
    VarintRoundTrip(v, rest, 10);
  }

  /** The byte that holds the low bits of `v`: `v | B`, and `v` when no more follow. */
  function LowByte(v: nat, more: bool): byte {
    if more then ByteOf(128 + v % 128) else ByteOf(v % 256)
  }

  lemma VarintIs(v: nat)
    ensures Varint(v) == if v < 128 then [LowByte(v, false)] else [LowByte(v, true)] + Varint(v / 128)
  {
    hide ByteOf;
  }

  method EncodeVarint32(v: nat) returns (bytes: seq<byte>)
    requires v < TWO_TO_32
    ensures bytes == Varint(v)
  {
    hide Varint, LowByte;
    var v7, v14, v21, v28 := v / 0x80, v / 0x4000, v / 0x20_0000, v / 0x1000_0000;
    assert v7 == v / 128 && v14 == v7 / 128 && v21 == v14 / 128 && v28 == v21 / 128;
    VarintIs(v);
    VarintIs(v7);
    VarintIs(v14);
    VarintIs(v21);
    VarintIs(v28);
    if v < 0x80 {
      bytes := [LowByte(v, false)];
    } else if v < 0x4000 {
      bytes := [LowByte(v, true), LowByte(v7, false)];
    } else if v < 0x20_0000 {
      bytes := [LowByte(v, true), LowByte(v7, true), LowByte(v14, false)];
    } else if v < 0x1000_0000 {
      bytes := [LowByte(v, true), LowByte(v7, true), LowByte(v14, true), LowByte(v21, false)];
    } else {
      bytes := [LowByte(v, true), LowByte(v7, true), LowByte(v14, true), LowByte(v21, true), LowByte(v28, false)];
    }
  }

  method EncodeVarint64(v0: nat) returns (bytes: seq<byte>)
    requires v0 < TWO_TO_64
    ensures bytes == Varint(v0)
  {
    hide Varint, LowByte;
    var v: nat := v0;
    bytes := [];
    VarintIs(v);
    while v >= 128
      invariant bytes + Varint(v) == Varint(v0)
      invariant Varint(v) == if v < 128 then [LowByte(v, false)] else [LowByte(v, true)] + Varint(v / 128)
    {
      bytes := bytes + [LowByte(v, true)];
      v := v / 128;
      VarintIs(v);
    }
    bytes := bytes + [LowByte(v, false)];
  }

  /** The loop of `GetVarint32PtrFallback` and `GetVarint64Ptr`: `count` bytes at most, a result of `modulus` values.
      Only the last byte can have bits that do not fit, so they are dropped at the end. */
  method GetVarint(input: seq<byte>, count: nat, modulus: nat) returns (r: Parsed<nat>)
    requires modulus > 0
    ensures r == match ParseVarint(input, count) case NotParsed => NotParsed
              case Parsed(v, rest) => Parsed(v % modulus, rest)
  {
    hide NatOf, ParseVarint, Shifted;
    var result: nat, scale: nat, p: nat := 0, 1, 0;
    assert input[0..] == input;
    ShiftedIs(ParseVarint(input, count), 0, 1);
    while p < count && p < |input|
      invariant 0 <= p <= |input| && p <= count && scale > 0
      invariant ParseVarint(input, count) == Shifted(ParseVarint(input[p..], count - p), result, scale)
    {
      NatOfBelow(input[p]);
      var b := NatOf(input[p]);
      ParseFirst(input[p..], count - p);
      assert input[p..][1..] == input[p + 1..] && input[p..][0] == input[p];
      ShiftedIs(ParseVarint(input[p..], count - p), result, scale);
      p := p + 1;
      if b >= 128 {
        ShiftedTwice(ParseVarint(input[p..], count - p), result, scale, b);
        result := result + (b - 128) * scale;
        scale := scale * 128;
      } else {
        return Parsed((result + scale * b) % modulus, input[p..]);
      }
    }
    ParseNothing(input[p..], count - p);
    ShiftedIs(ParseVarint(input[p..], count - p), result, scale);
    return NotParsed;
  }

  /** The number parsed after lower bits that are known already. */
  function Shifted(r: Parsed<nat>, low: nat, scale: nat): Parsed<nat> {
    match r
    case NotParsed => NotParsed
    case Parsed(v, rest) => Parsed(low + scale * v, rest)
  }

  lemma ShiftedIs(r: Parsed<nat>, low: nat, scale: nat)
    ensures Shifted(r, low, scale) == match r case NotParsed => NotParsed
              case Parsed(v, rest) => Parsed(low + scale * v, rest)
  {
  }

  lemma ShiftedTwice(r: Parsed<nat>, low: nat, scale: nat, b: nat)
    requires 128 <= b
    ensures Shifted(Shifted(r, b - 128, 128), low, scale) == Shifted(r, low + (b - 128) * scale, scale * 128)
  {
    if r.Parsed? {
      var v := r.value;
      assert scale * (b - 128 + 128 * v) == (b - 128) * scale + (scale * 128) * v;
    }
  }

  lemma ParseFirst(input: seq<byte>, count: nat)
    requires count > 0 && input != []
    ensures NatOf(input[0]) < 128 ==> ParseVarint(input, count) == Parsed(NatOf(input[0]), input[1..])
    ensures NatOf(input[0]) >= 128 ==>
              ParseVarint(input, count) == Shifted(ParseVarint(input[1..], count - 1), NatOf(input[0]) - 128, 128)
  {
    hide NatOf;
  }

  lemma ParseNothing(input: seq<byte>, count: nat)
    requires count == 0 || input == []
    ensures ParseVarint(input, count) == NotParsed
  {
  }

  method GetVarint32(input: seq<byte>) returns (r: Parsed<nat>)
    ensures r == ParseVarint32(input)
  {
    if input != [] && NatOf(input[0]) < 128 {
      NatOfBelow(input[0]);
      return Parsed(NatOf(input[0]), input[1..]);
    }
    r := GetVarint(input, 5, TWO_TO_32);
  }

  method GetVarint64(input: seq<byte>) returns (r: Parsed<nat>)
    ensures r == ParseVarint64(input)
  {
    r := GetVarint(input, 10, TWO_TO_64);
  }

  // ----- length-prefixed slices -----

  function LengthPrefixed(s: seq<byte>): seq<byte> {
    Varint(|s|) + s
  }

  function ParseSlice(input: seq<byte>): Parsed<seq<byte>> {
    match ParseVarint32(input)
    case NotParsed => NotParsed
    case Parsed(n, rest) => if n <= |rest| then Parsed(rest[..n], rest[n..]) else NotParsed
  }

  lemma SliceRoundTrip(s: seq<byte>, rest: seq<byte>)
    requires |s| < TWO_TO_32
    ensures ParseSlice(LengthPrefixed(s) + rest) == Parsed(s, rest)
  {
    assert LengthPrefixed(s) + rest == Varint(|s|) + (s + rest);
    Varint32RoundTrip(|s|, s + rest);
    assert (s + rest)[..|s|] == s && (s + rest)[|s|..] == rest;
  }

  method PutLengthPrefixedSlice(dst: seq<byte>, s: seq<byte>) returns (r: seq<byte>)
    requires |s| < TWO_TO_32
    ensures r == dst + LengthPrefixed(s)
  {
    var length := EncodeVarint32(|s|);
    r := dst + length;
    r := r + s;
  }

  method GetLengthPrefixedSlice(input: seq<byte>) returns (r: Parsed<seq<byte>>)
    ensures r == ParseSlice(input)
  {
    var n := GetVarint32(input);
    if n.Parsed? && |n.rest| >= n.value {
      return Parsed(n.rest[..n.value], n.rest[n.value..]);
    }
    return NotParsed;
  }

  // ----- division -----

  lemma Monotone(d: nat, p: nat, q: nat)
    ensures p <= q ==> d * p <= d * q
  {
  }

  lemma DivisionIs(v: nat, d: nat, q: nat, r: nat)
    requires v == d * q + r && r < d
    ensures v / d == q && v % d == r
  {
    var p := v / d;
    assert v == d * p + v % d;
    Monotone(d, p + 1, q);
    Monotone(d, q + 1, p);
  }
}
