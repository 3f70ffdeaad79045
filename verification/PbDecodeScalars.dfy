/** Reading numbers from a stream in nanopb (pb_decode.c).  A stream is the bytes that are left of it; each method
returns what it leaves. */
module PbDecodeScalars {
  import opened Bytes
  import opened Coding
  import opened PbTypes
  import opened PbWire

  /** The input begins with the encoding of `v`. */
  ghost predicate BeginsWith(input: seq<byte>, v: nat, tail: seq<byte>) {
    input == Coding.Varint(v) + tail
  }

  /** The first byte of a varint, and what follows. */
  lemma FirstByte(input: seq<byte>, v: nat, tail: seq<byte>)
    requires BeginsWith(input, v, tail)
    ensures input != []
    ensures v < 128 ==> NatOf(input[0]) == v && input[1..] == tail
    ensures v >= 128 ==> NatOf(input[0]) == 128 + v % 128 && BeginsWith(input[1..], v / 128, tail)
  {
    hide ByteOf, NatOf;
    if v < 128 {
      ByteRoundTrip(v);
    } else {
      ByteRoundTrip(128 + v % 128);
    }
  }

  lemma PowerGrows(k: nat)
    ensures Power(k + 7) == 128 * Power(k)
  {
    assert Power(k + 1) == 2 * Power(k);
    assert Power(k + 2) == 2 * Power(k + 1);
    assert Power(k + 3) == 2 * Power(k + 2);
    assert Power(k + 4) == 2 * Power(k + 3);
    assert Power(k + 5) == 2 * Power(k + 4);
    assert Power(k + 6) == 2 * Power(k + 5);
  }

  lemma {:induction false} PowerMonotone(a: nat, b: nat)
    requires a <= b
    ensures Power(a) <= Power(b)
  {
    if a < b {
      PowerMonotone(a, b - 1);
    }
  }

  lemma Powers()
    ensures Power(7) == 128 && Power(28) == 0x1000_0000 && Power(32) == TWO_TO_32 && Power(64) == TWO_TO_64
  {
    PowerGrows(0); PowerGrows(7); PowerGrows(14); PowerGrows(21); PowerGrows(28);
    PowerGrows(35); PowerGrows(42); PowerGrows(49); PowerGrows(56);
    assert Power(30) == 4 * Power(28) && Power(32) == 4 * Power(30);
    assert Power(64) == 2 * Power(63);
  }

  function AddGroup(result: nat, b: nat, bitpos: nat, limit: nat): nat {
    (result + b % 128 * Power(bitpos)) % Power(limit)
  }

  lemma SmallMod(x: nat, p: nat)
    requires x < p
    ensures x % p == x
  {
  }

  /** The number that the groups of seven bits make, the lowest first. */
  function Groups(p: seq<byte>): nat {
    if p == [] then 0 else Groups(p[..|p| - 1]) + NatOf(p[|p| - 1]) % 128 * Power(7 * (|p| - 1))
  }

  /** One more byte, modulo a power of 2. */
  lemma OneMoreGroup(input: seq<byte>, k: nat, result: nat, limit: nat)
    requires k < |input| && result == Groups(input[..k]) % Power(limit)
    ensures AddGroup(result, NatOf(input[k]), 7 * k, limit) == Groups(input[..k + 1]) % Power(limit)
  {
    hide Power, NatOf;
    assert input[..k + 1][..k] == input[..k];
    ModOfSum(Groups(input[..k]), NatOf(input[k]) % 128 * Power(7 * k), Power(limit));
  }

  lemma ModOfSum(x: nat, y: nat, m: nat)
    requires m > 0
    ensures (x % m + y) % m == (x + y) % m
  {
    var q, r := x / m, x % m;
    var q', r' := (r + y) / m, (r + y) % m;
    SumOfProducts(m, q, q');
    DivisionIs(x + y, m, q + q', r');
  }

  lemma SumOfProducts(m: nat, a: nat, b: nat)
    ensures m * (a + b) == m * a + m * b
  {
  }

  lemma FirstGroup(input: seq<byte>)
    requires input != []
    ensures NatOf(input[0]) % 128 == Groups(input[..1]) % Power(64)
  {
    hide NatOf;
    Powers();
    assert input[..1] == [input[0]] && [input[0]][..0] == [];
    assert Groups([]) == 0 && Power(0) == 1;
    SmallMod(NatOf(input[0]) % 128, Power(64));
  }

  /** No varint of ten bytes or fewer ends before byte `k`, or at it. */
  lemma NoVarint(input: seq<byte>, k: nat)
    requires k <= |input| && (k == |input| || k >= 10) && forall x :: 0 <= x < k ==> NatOf(input[x]) >= 128
    ensures forall n :: 0 <= n <= |input| && n <= 10 ==> !IsVarint(input[..n])
  {
    hide NatOf;
    forall n | 0 < n <= |input| && n <= 10 ensures !IsVarint(input[..n]) {
      assert input[..n][n - 1] == input[n - 1];
    }
  }

  lemma IsWholeVarint(input: seq<byte>, k: nat)
    requires 0 < k <= |input| && (forall x :: 0 <= x < k - 1 ==> NatOf(input[x]) >= 128) && NatOf(input[k - 1]) < 128
    ensures IsVarint(input[..k])
  {
    hide NatOf;
  }

  /** A byte beyond the 32 bits: no bits of the number, or the sign that a negative one has in 64 bits. */
  predicate IsSpare(i: nat, b: nat, value: nat) {
    b % 128 == 0 || (value >= 0x8000_0000 && b == if 7 * i < 63 then 0xff else 0x01)
  }

  /** A varint of a number of 32 bits, perhaps with spare bytes. */
  ghost predicate Fits32(p: seq<byte>) {
    if |p| <= 5 then Groups(p) < TWO_TO_32
    else forall i :: 5 <= i < |p| ==> IsSpare(i, NatOf(p[i]), Groups(p) % TWO_TO_32)
  }

  lemma {:induction false} GroupsFromFront(p: seq<byte>)
    requires p != []
    ensures Groups(p) == NatOf(p[0]) % 128 + 128 * Groups(p[1..])
    decreases |p|
  {
    hide NatOf, Power;
    var n := |p| - 1;
    if n > 0 {
      GroupsFromFront(p[..n]);
      assert p[..n][1..] == p[1..][..n - 1];
      PowerGrows(7 * (n - 1));
      ProductOfThree(NatOf(p[n]) % 128, 128, Power(7 * (n - 1)));
    } else {
      NoGroups();
      assert p[..0] == [] && p[1..] == [];
    }
  }

  lemma NoGroups()
    ensures Groups([]) == 0 && Power(0) == 1
  {
  }

  /** What the encoder writes is a varint of the number, as short as possible. */
  lemma {:induction false} EncodedIsVarint(v: nat)
    ensures var p := Coding.Varint(v); IsVarint(p) && Groups(p) == v && (|p| > 1 ==> v >= Power(7 * (|p| - 1)))
  {
    hide NatOf, ByteOf, Power;
    var p := Coding.Varint(v);
    GroupsFromFront(p);
    if v < 128 {
      ByteRoundTrip(v);
      NoGroups();
      assert p[1..] == [];
    } else {
      ByteRoundTrip(128 + v % 128);
      EncodedIsVarint(v / 128);
      assert p[1..] == Coding.Varint(v / 128);
      Powers();
      PowerGrows(7 * (|p| - 2));
      NoGroups();
    }
  }

  /** The number that the input begins with is the only one that it begins with. */
  lemma BeginsWithVarint(input: seq<byte>, v: nat, tail: seq<byte>) returns (k: nat)
    requires BeginsWith(input, v, tail)
    ensures 0 < k <= |input| && input[k..] == tail && IsVarint(input[..k]) && Groups(input[..k]) == v
    ensures forall n :: 0 <= n <= |input| && IsVarint(input[..n]) ==> n == k
    ensures v < TWO_TO_64 ==> k <= 10 && v % TWO_TO_64 == v
    ensures v < TWO_TO_32 ==> k <= 5 && Fits32(input[..k]) && v % TWO_TO_32 == v
  {
    hide Coding.Varint, Groups, Power, IsVarint;
    EncodedIsVarint(v);
    k := |Coding.Varint(v)|;
    assert input[..k] == Coding.Varint(v);
    NotEmpty(input[..k]);
    OnlyOneEnds(input, k);
    Powers();
    if k > 5 {
      PowerMonotone(35, 7 * (k - 1));
      PowerMonotone(32, 35);
    }
    if k > 10 {
      PowerMonotone(70, 7 * (k - 1));
      PowerMonotone(64, 70);
    }
  }

  lemma NotEmpty(p: seq<byte>)
    requires IsVarint(p)
    ensures p != []
  {
  }

  lemma {:induction false} PowerSplits(a: nat, b: nat)
    ensures Power(a + b) == Power(a) * Power(b)
  {
    if a > 0 {
      PowerSplits(a - 1, b);
      assert Power(a) * Power(b) == 2 * (Power(a - 1) * Power(b));
    }
  }

  lemma MultipleIsNothing(x: nat, y: nat, m: nat)
    requires m > 0
    ensures (x + m * y) % m == x % m
  {
    SumOfProducts(m, x / m, y);
    DivisionIs(x + m * y, m, x / m + y, x % m);
  }

  /** Groups above the 32 bits change nothing. */
  lemma SpareIsNothing(input: seq<byte>, k: nat)
    requires 5 <= k < |input|
    ensures Groups(input[..k + 1]) % Power(32) == Groups(input[..k]) % Power(32)
  {
    hide Power, NatOf;
    assert input[..k + 1][..k] == input[..k];
    var g, q := NatOf(input[k]) % 128, Power(7 * k - 32);
    PowerSplits(32, 7 * k - 32);
    ProductOfThree(g, Power(32), q);
    MultipleIsNothing(Groups(input[..k]), g * q, Power(32));
  }

  lemma ProductOfThree(g: nat, m: nat, q: nat)
    ensures g * (m * q) == m * (g * q)
  {
  }

  lemma {:induction false} SparesAreNothing(input: seq<byte>, k: nat, n: nat)
    requires 5 <= k <= n <= |input|
    ensures Groups(input[..n]) % Power(32) == Groups(input[..k]) % Power(32)
    decreases n - k
  {
    hide Groups, Power;
    if k < n {
      SpareIsNothing(input, n - 1);
      SparesAreNothing(input, k, n - 1);
    }
  }

  lemma {:induction false} GroupsBelow(p: seq<byte>)
    ensures Groups(p) < Power(7 * |p|)
    decreases |p|
  {
    hide NatOf;
    if p != [] {
      var n := |p| - 1;
      GroupsBelow(p[..n]);
      PowerGrows(7 * n);
      hide Power;
      LastGroupFits(Groups(p[..n]), NatOf(p[n]) % 128, Power(7 * n));
    } else {
      assert Power(0) == 1;
    }
  }

  lemma LastGroupFits(x: nat, g: nat, m: nat)
    requires x < m && g < 128
    ensures x + g * m < 128 * m
  {
    Monotone(m, g, 127);
  }

  /** `k` bytes of a varint have been read, and more follow. */
  ghost predicate Taken32(input: seq<byte>, k: nat, result: nat) {
    && 0 < k <= |input| && result == Groups(input[..k]) % TWO_TO_32
    && (forall x :: 0 <= x < k ==> NatOf(input[x]) >= 128)
    && (forall i :: 5 <= i < k ==> IsSpare(i, NatOf(input[i]), result))
  }

  lemma OneTaken(input: seq<byte>)
    requires input != []
    ensures var b := NatOf(input[0]);
            && (b >= 128 ==> Taken32(input, 1, b % 128))
            && (b < 128 ==> IsVarint(input[..1]) && Fits32(input[..1]) && b == Groups(input[..1]) % TWO_TO_32)
  {
    hide NatOf;
    assert input[..1] == [input[0]] && [input[0]][..0] == [];
    assert Groups([]) == 0 && Power(0) == 1;
    assert Groups(input[..1]) == NatOf(input[0]) % 128;
  }

  /** A byte within the 32 bits. */
  lemma TakenBelow(input: seq<byte>, k: nat, result: nat)
    requires Taken32(input, k, result) && k < 5 && k < |input|
    ensures var b := NatOf(input[k]); var result' := AddGroup(result, b, 7 * k, 32);
            && (b >= 128 ==> Taken32(input, k + 1, result'))
            && (b < 128 ==> IsVarint(input[..k + 1]) && result' == Groups(input[..k + 1]) % TWO_TO_32)
            && (b < 128 ==> (Fits32(input[..k + 1]) <==> k < 4 || b / 16 % 8 == 0))
  {
    hide Power, NatOf, AddGroup, Groups;
    Powers();
    OneMoreGroup(input, k, result, 32);
    if NatOf(input[k]) < 128 {
      IsWholeVarint(input, k + 1);
      FiveGroups(input, k);
    }
  }

  /** Four groups fit, and of the fifth its lowest four bits. */
  lemma FiveGroups(input: seq<byte>, k: nat)
    requires k < 5 && k < |input| && NatOf(input[k]) < 128
    ensures Groups(input[..k + 1]) < TWO_TO_32 <==> k < 4 || NatOf(input[k]) / 16 % 8 == 0
  {
    hide Power, NatOf;
    Powers();
    if k < 4 {
      GroupsBelow(input[..k + 1]);
      PowerMonotone(7 * (k + 1), 28);
    } else {
      GroupsBelow(input[..4]);
      assert input[..5][..4] == input[..4];
      assert Groups(input[..5]) == Groups(input[..4]) + NatOf(input[4]) * 0x1000_0000;
    }
  }

  /** A byte above the 32 bits. */
  lemma TakenAbove(input: seq<byte>, k: nat, result: nat)
    requires Taken32(input, k, result) && 5 <= k < |input|
    ensures var b := NatOf(input[k]);
            var spare := b % 128 == 0 || (result >= 0x8000_0000 && b == if 7 * k < 63 then 0xff else 0x01);
            && (b >= 128 && spare ==> Taken32(input, k + 1, result))
            && (b < 128 && spare ==>
                  IsVarint(input[..k + 1]) && Fits32(input[..k + 1]) && result == Groups(input[..k + 1]) % TWO_TO_32)
            && (!spare ==> forall n :: 0 <= n <= |input| && IsVarint(input[..n]) ==> !Fits32(input[..n]))
  {
    hide Power, NatOf, Groups;
    Powers();
    SpareIsNothing(input, k);
    if NatOf(input[k]) < 128 {
      IsWholeVarint(input, k + 1);
    }
    forall n | 0 <= n <= |input| && IsVarint(input[..n]) && !IsSpare(k, NatOf(input[k]), result)
      ensures !Fits32(input[..n])
    {
      EndsLater(input, k, n);
      SparesAreNothing(input, k, n);
      assert input[..n][k] == input[k];
    }
  }

  lemma EndsLater(input: seq<byte>, k: nat, n: nat)
    requires k <= |input| && n <= |input| && IsVarint(input[..n]) && forall x :: 0 <= x < k ==> NatOf(input[x]) >= 128
    ensures k < n
  {
    hide NatOf;
    assert input[..n][n - 1] == input[n - 1];
  }

  /** The input ends, or too many bytes have been read. */
  lemma NoEnd(input: seq<byte>, k: nat)
    requires k <= |input| && forall x :: 0 <= x < k ==> NatOf(input[x]) >= 128
    ensures forall n :: 0 <= n <= k ==> !IsVarint(input[..n])
  {
    hide NatOf;
    forall n | 0 < n <= k ensures !IsVarint(input[..n]) {
      assert input[..n][n - 1] == input[n - 1];
    }
  }

  lemma OnlyOneEnds(input: seq<byte>, k: nat)
    requires 0 < k <= |input| && IsVarint(input[..k])
    ensures forall n :: 0 <= n <= |input| && IsVarint(input[..n]) ==> n == k
  {
    hide NatOf;
    forall n | 0 < n <= |input| && IsVarint(input[..n]) ensures n == k {
      assert forall x :: 0 <= x < n ==> input[..n][x] == input[x];
      assert forall x :: 0 <= x < k ==> input[..k][x] == input[x];
    }
  }

  /** `pb_decode_varint32_eof`: reads the varints of numbers of 32 bits, and nothing else. The place of a bit is kept in
      8 bits, so varints of more than 37 bytes are left out. */
  method DecodeVarint32(input: seq<byte>, ghost v: nat, ghost tail: seq<byte>)
      returns (ok: bool, eof: bool, value: nat, rest: seq<byte>)
    ensures ok ==> |rest| < |input| && rest == input[|input| - |rest|..] && value < TWO_TO_32
    ensures (eof <==> input == []) && (eof ==> !ok)
    ensures ok ==> var p := input[..|input| - |rest|];
                   IsVarint(p) && (|p| <= 37 ==> Fits32(p) && value == Groups(p) % TWO_TO_32)
    ensures !ok ==> forall n :: 0 <= n <= |input| && n <= 37 && IsVarint(input[..n]) ==> !Fits32(input[..n])
    ensures BeginsWith(input, v, tail) && v < TWO_TO_32 ==> ok && value == v && rest == tail
  {
    hide *;
    Powers();
    if BeginsWith(input, v, tail) {
      var _ := BeginsWithVarint(input, v, tail);
    }
    if input == [] {
      NoEnd(input, 0);
      return false, true, 0, input;
    }
    NatOfBelow(input[0]);
    OneTaken(input);
    var b := NatOf(input[0]);
    rest := input[1..];
    if b < 128 {
      SmallFits(b);
      return true, false, b, rest;
    }
    var bitpos: nat, result: nat := 7, b % 128;
    SmallFits(result);
    ghost var k: nat := 1;
    while true
      invariant 0 < k <= |input| && rest == input[k..] && result < TWO_TO_32
      invariant forall x :: 0 <= x < k ==> NatOf(input[x]) >= 128
      invariant k <= 36 ==> bitpos == 7 * k && Taken32(input, k, result)
      decreases |rest|
    {
      if rest == [] {
        NoEnd(input, k);
        return false, false, 0, rest;
      }
      NatOfBelow(rest[0]);
      if k < 5 {
        TakenBelow(input, k, result);
      } else if k <= 36 {
        TakenAbove(input, k, result);
      } else {
        NoEnd(input, k);
      }
      b := NatOf(rest[0]);
      rest := rest[1..];
      if bitpos >= 32 {
        var signExtension := if bitpos < 63 then 0xff else 0x01;
        if b % 128 != 0 && (result < 0x8000_0000 || b != signExtension) {
          return false, false, 0, rest;
        }
      } else {
        AddGroupFits(result, b, bitpos, 32);
        result := AddGroup(result, b, bitpos, 32);
      }
      bitpos := (bitpos + 7) % 256;
      k := k + 1;
      if b < 128 {
        break;
      }
    }
    IsWholeVarint(input, k);
    OnlyOneEnds(input, k);
    if bitpos == 35 && b / 16 % 8 != 0 {
      return false, false, 0, rest;
    }
    return true, false, result, rest;
  }

  lemma SmallFits(n: nat)
    requires n < 256
    ensures n < TWO_TO_32 && n < TWO_TO_64
  {
  }

  lemma AddGroupFits(result: nat, b: nat, bitpos: nat, limit: nat)
    ensures AddGroup(result, b, bitpos, limit) < Power(limit)
  {
    hide Power;
  }

  /** `pb_decode_varint` reads the varints of ten bytes or fewer, and nothing else; bits above 64 are dropped. */
  method DecodeVarint(input: seq<byte>, ghost v: nat, ghost tail: seq<byte>)
      returns (ok: bool, value: nat, rest: seq<byte>)
    ensures ok ==> |rest| < |input| && var p := input[..|input| - |rest|];
                     IsVarint(p) && |p| <= 10 && value == Groups(p) % TWO_TO_64
    ensures !ok ==> forall n :: 0 <= n <= |input| && n <= 10 ==> !IsVarint(input[..n])
    ensures ok ==> |rest| < |input| && rest == input[|input| - |rest|..] && value < TWO_TO_64
    ensures BeginsWith(input, v, tail) && v < TWO_TO_64 ==> ok && value == v && rest == tail
  {
    hide *;
    Powers();
    if BeginsWith(input, v, tail) {
      var _ := BeginsWithVarint(input, v, tail);
    }
    if input == [] {
      NoVarint(input, 0);
      return false, 0, input;
    }
    NatOfBelow(input[0]);
    FirstGroup(input);
    var b := NatOf(input[0]);
    rest := input[1..];
    var bitpos: nat, result: nat := 7, b % 128;
    SmallFits(result);
    ghost var k: nat := 1;
    while b >= 128
      invariant 0 < k <= |input| && k <= 10 && rest == input[k..] && bitpos == 7 * k && result < TWO_TO_64
      invariant b == NatOf(input[k - 1]) && forall x :: 0 <= x < k - 1 ==> NatOf(input[x]) >= 128
      invariant result == Groups(input[..k]) % Power(64)
      decreases |rest|
    {
      if bitpos >= 64 {
        NoVarint(input, k);
        return false, 0, rest;
      }
      if rest == [] {
        NoVarint(input, k);
        return false, 0, rest;
      }
      NatOfBelow(rest[0]);
      b := NatOf(rest[0]);
      rest := rest[1..];
      AddGroupFits(result, b, bitpos, 64);
      OneMoreGroup(input, k, result, 64);
      result := AddGroup(result, b, bitpos, 64);
      bitpos := bitpos + 7;
      k := k + 1;
    }
    IsWholeVarint(input, k);
    return true, result, rest;
  }

  /** `int64_t` of a `uint64_t`. */
  function Signed(value: nat, width: nat): int {
    var n := value % Values(width);
    if n < Values(width) / 2 then n else n - Values(width)
  }

  /** `pb_decode_svarint`: `~(value >> 1)` or `value >> 1`. */
  function UnZigZag(value: nat): int {
    if value % 2 == 1 then -(value / 2) - 1 else value / 2
  }

  lemma ZigZagRoundTrip(n: int)
    requires FitsSigned(n, 8)
    ensures ZigZag(n) < TWO_TO_64 && UnZigZag(ZigZag(n)) == n
  {
  }

  /** What `pb_dec_varint` makes of the 64 bits: fields of 32 bits or less are cut to `int32_t` first. */
  function SignedField(value: nat, width: nat): int {
    if width == 8 then Signed(value, 8) else Signed(value, 4)
  }

  lemma SignedRoundTrip(n: int, width: nat)
    requires IsWidth(width) && FitsSigned(n, width)
    ensures FitsSigned(n, 8) && Unsigned64(n) < TWO_TO_64 && SignedField(Unsigned64(n), width) == n
  {
    if n < 0 && width != 8 {
      assert Unsigned64(n) == n + 0x1_0000_0000 + 0xffff_ffff * 0x1_0000_0000;
    }
  }
}
