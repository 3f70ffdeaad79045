/** Numbers below 256 as bytes, bit by bit. */
module Bytes {
  type byte = bv8

  function Half(b: byte): byte {
    b >> 1
  }

  function Odd(b: byte): bool {
    b & 1 == 1
  }

  function Shift(b: byte, d: bool): byte {
    (b << 1) | (if d then 1 else 0)
  }

  /** The lowest `k` bits of a number. */
  function ToBits(n: nat, k: nat): byte {
    if k == 0 then 0 else Shift(ToBits(n / 2, k - 1), n % 2 == 1)
  }

  function FromBits(b: byte, k: nat): nat {
    if k == 0 then 0 else 2 * FromBits(Half(b), k - 1) + (if Odd(b) then 1 else 0)
  }

  function Power(k: nat): (r: nat)
    ensures r > 0
  {
    if k == 0 then 1 else 2 * Power(k - 1)
  }

  function Ones(k: nat): byte {
    if k == 0 then 0 else Shift(Ones(k - 1), true)
  }

  function ByteOf(n: nat): byte
    requires n < 256
  {
    ToBits(n, 8)
  }

  function NatOf(b: byte): nat {
    FromBits(b, 8)
  }

  lemma ByteRoundTrip(n: nat)
    requires n < 256
    ensures NatOf(ByteOf(n)) == n
  {
    assert Power(8) == 256;
    BitsRoundTrip(n, 8);
  }

  lemma {:induction false} BitsRoundTrip(n: nat, k: nat)
    requires n < Power(k) && k <= 8
    ensures FromBits(ToBits(n, k), k) == n && ToBits(n, k) <= Ones(k)
  {
    hide Shift, Half, Odd;
    if k > 0 {
      BitsRoundTrip(n / 2, k - 1);
      SevenOnes(k - 1);
      ShiftUndone(ToBits(n / 2, k - 1), n % 2 == 1, Ones(k - 1));
    }
  }

  lemma ShiftUndone(b: byte, d: bool, max: byte)
    requires b <= max <= 0x7f
    ensures Half(Shift(b, d)) == b && Odd(Shift(b, d)) == d && Shift(b, d) <= Shift(max, true)
  {
  }

  lemma SevenOnes(k: nat)
    requires k <= 7
    ensures Ones(k) <= 0x7f
  {
    assert Ones(1) == 1;
    assert Ones(2) == 3;
    assert Ones(3) == 7;
    assert Ones(4) == 15;
    assert Ones(5) == 31;
    assert Ones(6) == 63;
    assert Ones(7) == 127;
  }

  lemma {:induction false} BitsBelow(b: byte, k: nat)
    ensures FromBits(b, k) < Power(k)
  {
    if k > 0 {
      BitsBelow(Half(b), k - 1);
    }
  }

  lemma NatOfBelow(b: byte)
    ensures NatOf(b) < 256
  {
    BitsBelow(b, 8);
    assert Power(8) == 256;
  }

  /** A byte is the number that its bits say: what each of them stands for, and how they add up. */
  lemma BitValues()
    ensures NatOf(1) == 1 && NatOf(2) == 2 && NatOf(4) == 4 && NatOf(8) == 8
    ensures NatOf(16) == 16 && NatOf(32) == 32 && NatOf(64) == 64 && NatOf(128) == 128
  {
  }

  lemma BitsAdd(a: byte, b: byte)
    requires a & b == 0
    ensures NatOf(a | b) == NatOf(a) + NatOf(b)
  {
    FromBitsAdd(a, b, 8);
  }

  lemma {:induction false} FromBitsAdd(a: byte, b: byte, k: nat)
    requires a & b == 0
    ensures FromBits(a | b, k) == FromBits(a, k) + FromBits(b, k)
    decreases k
  {
    hide Half, Odd;
    if k > 0 {
      HalvesOfOr(a, b);
      FromBitsAdd(Half(a), Half(b), k - 1);
    }
  }

  lemma HalvesOfOr(a: byte, b: byte)
    requires a & b == 0
    ensures Half(a) & Half(b) == 0 && Half(a | b) == Half(a) | Half(b)
    ensures (Odd(a | b) <==> Odd(a) || Odd(b)) && !(Odd(a) && Odd(b))
  {
  }

  lemma {:induction false} ToFromBits(b: byte, k: nat)
    requires k <= 8 && (k < 8 ==> b <= Ones(k))
    ensures ToBits(FromBits(b, k), k) == b
    decreases k
  {
    hide Half, Odd, Shift, Ones, FromBits, ToBits;
    if k > 0 {
      HalfBelow(b, k);
      ToFromBits(Half(b), k - 1);
      ToFromStep(b, k);
      ShiftHalf(b);
    } else {
      NoBits(b);
      NoOnes(b);
    }
  }

  lemma NoBits(b: byte)
    ensures ToBits(FromBits(b, 0), 0) == 0
  {
  }

  lemma ToFromStep(b: byte, k: nat)
    requires k > 0
    ensures ToBits(FromBits(b, k), k) == Shift(ToBits(FromBits(Half(b), k - 1), k - 1), Odd(b))
  {
    hide Half, Odd, Shift, ToBits, FromBits;
    var n, d := FromBits(Half(b), k - 1), Odd(b);
    FromBitsUnfolds(b, k);
    ToBitsUnfolds(FromBits(b, k), k);
    HalfOf(n, d);
  }

  lemma FromBitsUnfolds(b: byte, k: nat)
    requires k > 0
    ensures FromBits(b, k) == 2 * FromBits(Half(b), k - 1) + if Odd(b) then 1 else 0
  {
    hide Half, Odd;
  }

  lemma ToBitsUnfolds(n: nat, k: nat)
    requires k > 0
    ensures ToBits(n, k) == Shift(ToBits(n / 2, k - 1), n % 2 == 1)
  {
    hide Shift;
  }

  lemma HalfOf(n: nat, d: bool)
    ensures var m := 2 * n + if d then 1 else 0; m / 2 == n && (m % 2 == 1 <==> d)
  {
  }

  lemma NoOnes(b: byte)
    requires b <= Ones(0)
    ensures b == 0
  {
  }

  lemma ShiftHalf(b: byte)
    ensures Shift(Half(b), Odd(b)) == b
  {
  }

  lemma HalfBelow(b: byte, k: nat)
    requires 0 < k <= 8 && (k < 8 ==> b <= Ones(k))
    ensures Half(b) <= Ones(k - 1)
  {
    if k == 8 {
      assert Ones(1) == 1 && Ones(3) == 7 && Ones(5) == 31;
      assert Ones(7) == 127;
      HalfMonotone(b, 127);
    } else {
      SevenOnes(k - 1);
      HalfMonotone(b, Ones(k - 1));
    }
  }

  lemma HalfMonotone(b: byte, c: byte)
    requires c <= 0x7f && b <= Shift(c, true)
    ensures Half(b) <= c
  {
  }

  lemma NatRoundTrip(b: byte)
    ensures NatOf(b) < 256 && ByteOf(NatOf(b)) == b
  {
    NatOfBelow(b);
    ToFromBits(b, 8);
  }
}
