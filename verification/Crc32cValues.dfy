/** The numbers of CRC-32C: entries of the tables in util/crc32c.cc and the check values of section B.4 of RFC 3720. */
module Crc32cValues {
  import opened Bytes
  import opened Crc32c

  /** `kByteExtensionTable` at the single bits. */
  lemma ByteEntries()
    ensures ByteEntry(1) == 0xf26b8303
    ensures ByteEntry(2) == 0xe13b70f7
    ensures ByteEntry(4) == 0xc79a971f
    ensures ByteEntry(8) == 0x8ad958cf
    ensures ByteEntry(16) == 0x105ec76f
    ensures ByteEntry(32) == 0x20bd8ede
    ensures ByteEntry(64) == 0x417b1dbc
    ensures ByteEntry(128) == 0x82f63b78
  {
  }

  /** The other entries follow: each is the sum of the entries of its bits. */
  lemma ByteEntriesAdd(a: byte, b: byte)
    ensures ByteEntry(a ^ b) == Xor(ByteEntry(a), ByteEntry(b)) && ByteEntry(0) == 0
  {
    WidenXor(a, b);
    ZeroSteps();
    hide ByteSteps, Xor;
    ByteStepsIsLinear(a as word, b as word);
  }

  lemma WidenXor(a: byte, b: byte)
    ensures (a ^ b) as word == Xor(a as word, b as word)
  {
  }

  lemma ZeroSteps()
    ensures ByteSteps(0) == 0
  {
  }

  /** One more byte of the same kind. */
  lemma OneMore(b: byte, n: nat, r: word)
    requires Update(ALL_ONES, seq(n, _ => b)) == r
    ensures Update(ALL_ONES, seq(n + 1, _ => b)) == ByteSteps(Xor(r, b as word))
  {
    hide ByteSteps, Xor;
    assert seq(n + 1, _ => b)[..n] == seq(n, _ => b);
  }

  /** 32 bytes of zeros. */
  lemma ZeroBytes()
    ensures Extended(0, seq(32, _ => 0)) == 0x8a9136aa
  {
    ZeroBytes8();
    ZeroBytes16();
    ZeroBytes24();
    ZeroBytes32();
    assert Xor(0, ALL_ONES) == ALL_ONES && Xor(0x756ec955, ALL_ONES) == 0x8a9136aa;
  }

  lemma ZeroBytes8()
    ensures Update(ALL_ONES, seq(8, _ => 0)) == 0x73d74d75
  {
    assert ByteSteps(Xor(0xffffffff, 0)) == 0xad82acae;
    assert ByteSteps(Xor(0xad82acae, 0)) == 0x0e9e882d;
    assert ByteSteps(Xor(0x0e9e882d, 0)) == 0x9f9b5c85;
    assert ByteSteps(Xor(0x9f9b5c85, 0)) == 0xb798b438;
    assert ByteSteps(Xor(0xb798b438, 0)) == 0xba8d89ca;
    assert ByteSteps(Xor(0xba8d89ca, 0)) == 0xa8d58375;
    assert ByteSteps(Xor(0xa8d58375, 0)) == 0x44c19592;
    assert ByteSteps(Xor(0x44c19592, 0)) == 0x73d74d75;
    hide ByteSteps, Xor;
    OneMore(0, 0, 0xffffffff);
    OneMore(0, 1, 0xad82acae);
    OneMore(0, 2, 0x0e9e882d);
    OneMore(0, 3, 0x9f9b5c85);
    OneMore(0, 4, 0xb798b438);
    OneMore(0, 5, 0xba8d89ca);
    OneMore(0, 6, 0xa8d58375);
    OneMore(0, 7, 0x44c19592);
  }

  lemma ZeroBytes16()
    requires Update(ALL_ONES, seq(8, _ => 0)) == 0x73d74d75
    ensures Update(ALL_ONES, seq(16, _ => 0)) == 0xbd8f6515
  {
    assert ByteSteps(Xor(0x73d74d75, 0)) == 0x441a975c;
    assert ByteSteps(Xor(0x441a975c, 0)) == 0x1c220f94;
    assert ByteSteps(Xor(0x1c220f94, 0)) == 0x552e4907;
    assert ByteSteps(Xor(0x552e4907, 0)) == 0xd49f4aa2;
    assert ByteSteps(Xor(0xd49f4aa2, 0)) == 0x43a45a1b;
    assert ByteSteps(Xor(0x43a45a1b, 0)) == 0x8994c80e;
    assert ByteSteps(Xor(0x8994c80e, 0)) == 0xacf12bef;
    assert ByteSteps(Xor(0xacf12bef, 0)) == 0xbd8f6515;
    hide ByteSteps, Xor;
    OneMore(0, 8, 0x73d74d75);
    OneMore(0, 9, 0x441a975c);
    OneMore(0, 10, 0x1c220f94);
    OneMore(0, 11, 0x552e4907);
    OneMore(0, 12, 0xd49f4aa2);
    OneMore(0, 13, 0x43a45a1b);
    OneMore(0, 14, 0x8994c80e);
    OneMore(0, 15, 0xacf12bef);
  }

  lemma ZeroBytes24()
    requires Update(ALL_ONES, seq(16, _ => 0)) == 0xbd8f6515
    ensures Update(ALL_ONES, seq(24, _ => 0)) == 0x7b041311
  {
    assert ByteSteps(Xor(0xbd8f6515, 0)) == 0x25125c16;
    assert ByteSteps(Xor(0x25125c16, 0)) == 0x36da32db;
    assert ByteSteps(Xor(0x36da32db, 0)) == 0x4a6c90a2;
    assert ByteSteps(Xor(0x4a6c90a2, 0)) == 0x433aa9c1;
    assert ByteSteps(Xor(0x433aa9c1, 0)) == 0x31a59f6e;
    assert ByteSteps(Xor(0x31a59f6e, 0)) == 0xcd8f89da;
    assert ByteSteps(Xor(0xcd8f89da, 0)) == 0xb8fc461a;
    assert ByteSteps(Xor(0xb8fc461a, 0)) == 0x7b041311;
    hide ByteSteps, Xor;
    OneMore(0, 16, 0xbd8f6515);
    OneMore(0, 17, 0x25125c16);
    OneMore(0, 18, 0x36da32db);
    OneMore(0, 19, 0x4a6c90a2);
    OneMore(0, 20, 0x433aa9c1);
    OneMore(0, 21, 0x31a59f6e);
    OneMore(0, 22, 0xcd8f89da);
    OneMore(0, 23, 0xb8fc461a);
  }

  lemma ZeroBytes32()
    requires Update(ALL_ONES, seq(24, _ => 0)) == 0x7b041311
    ensures Update(ALL_ONES, seq(32, _ => 0)) == 0x756ec955
  {
    assert ByteSteps(Xor(0x7b041311, 0)) == 0xe24e407f;
    assert ByteSteps(Xor(0xe24e407f, 0)) == 0x2f692669;
    assert ByteSteps(Xor(0x2f692669, 0)) == 0x195b2188;
    assert ByteSteps(Xor(0x195b2188, 0)) == 0x08363896;
    assert ByteSteps(Xor(0x08363896, 0)) == 0xb4012dc7;
    assert ByteSteps(Xor(0xb4012dc7, 0)) == 0x17f34302;
    assert ByteSteps(Xor(0x17f34302, 0)) == 0xe12c83b4;
    assert ByteSteps(Xor(0xe12c83b4, 0)) == 0x756ec955;
    hide ByteSteps, Xor;
    OneMore(0, 24, 0x7b041311);
    OneMore(0, 25, 0xe24e407f);
    OneMore(0, 26, 0x2f692669);
    OneMore(0, 27, 0x195b2188);
    OneMore(0, 28, 0x08363896);
    OneMore(0, 29, 0xb4012dc7);
    OneMore(0, 30, 0x17f34302);
    OneMore(0, 31, 0xe12c83b4);
  }

  /** 32 bytes of ones. */
  lemma OneBytes()
    ensures Extended(0, seq(32, _ => 255)) == 0x62a8ab43
  {
    OneBytes8();
    OneBytes16();
    OneBytes24();
    OneBytes32();
    assert Xor(0, ALL_ONES) == ALL_ONES && Xor(0x9d5754bc, ALL_ONES) == 0x62a8ab43;
  }

  lemma OneBytes8()
    ensures Update(ALL_ONES, seq(8, _ => 255)) == 0xb798b438
  {
    assert ByteSteps(Xor(0xffffffff, 255)) == 0x00ffffff;
    assert ByteSteps(Xor(0x00ffffff, 255)) == 0x0000ffff;
    assert ByteSteps(Xor(0x0000ffff, 255)) == 0x000000ff;
    assert ByteSteps(Xor(0x000000ff, 255)) == 0x00000000;
    assert ByteSteps(Xor(0x00000000, 255)) == 0xad7d5351;
    assert ByteSteps(Xor(0xad7d5351, 255)) == 0x0e9e77d2;
    assert ByteSteps(Xor(0x0e9e77d2, 255)) == 0x9f9b5c7a;
    assert ByteSteps(Xor(0x9f9b5c7a, 255)) == 0xb798b438;
    hide ByteSteps, Xor;
    OneMore(255, 0, 0xffffffff);
    OneMore(255, 1, 0x00ffffff);
    OneMore(255, 2, 0x0000ffff);
    OneMore(255, 3, 0x000000ff);
    OneMore(255, 4, 0x00000000);
    OneMore(255, 5, 0xad7d5351);
    OneMore(255, 6, 0x0e9e77d2);
    OneMore(255, 7, 0x9f9b5c7a);
  }

  lemma OneBytes16()
    requires Update(ALL_ONES, seq(8, _ => 255)) == 0xb798b438
    ensures Update(ALL_ONES, seq(16, _ => 255)) == 0x10d0b3ef
  {
    assert ByteSteps(Xor(0xb798b438, 255)) == 0x17f0da9b;
    assert ByteSteps(Xor(0x17f0da9b, 255)) == 0xa64bf4a7;
    assert ByteSteps(Xor(0xa64bf4a7, 255)) == 0xdb5ac9e8;
    assert ByteSteps(Xor(0xdb5ac9e8, 255)) == 0xc44ff94d;
    assert ByteSteps(Xor(0xc44ff94d, 255)) == 0x53ea4dc7;
    assert ByteSteps(Xor(0x53ea4dc7, 255)) == 0xba69fb33;
    assert ByteSteps(Xor(0xba69fb33, 255)) == 0x8e7480ef;
    assert ByteSteps(Xor(0x8e7480ef, 255)) == 0x10d0b3ef;
    hide ByteSteps, Xor;
    OneMore(255, 8, 0xb798b438);
    OneMore(255, 9, 0x17f0da9b);
    OneMore(255, 10, 0xa64bf4a7);
    OneMore(255, 11, 0xdb5ac9e8);
    OneMore(255, 12, 0xc44ff94d);
    OneMore(255, 13, 0x53ea4dc7);
    OneMore(255, 14, 0xba69fb33);
    OneMore(255, 15, 0x8e7480ef);
  }

  lemma OneBytes24()
    requires Update(ALL_ONES, seq(16, _ => 255)) == 0x10d0b3ef
    ensures Update(ALL_ONES, seq(24, _ => 255)) == 0xee657f3b
  {
    assert ByteSteps(Xor(0x10d0b3ef, 255)) == 0x104e17dc;
    assert ByteSteps(Xor(0x104e17dc, 255)) == 0x33fd333d;
    assert ByteSteps(Xor(0x33fd333d, 255)) == 0x2285ab00;
    assert ByteSteps(Xor(0x2285ab00, 255)) == 0xad5fd6fa;
    assert ByteSteps(Xor(0xad5fd6fa, 255)) == 0x355c4bca;
    assert ByteSteps(Xor(0x355c4bca, 255)) == 0x052701e6;
    assert ByteSteps(Xor(0x052701e6, 255)) == 0x68e93ba2;
    assert ByteSteps(Xor(0x68e93ba2, 255)) == 0xee657f3b;
    hide ByteSteps, Xor;
    OneMore(255, 16, 0x10d0b3ef);
    OneMore(255, 17, 0x104e17dc);
    OneMore(255, 18, 0x33fd333d);
    OneMore(255, 19, 0x2285ab00);
    OneMore(255, 20, 0xad5fd6fa);
    OneMore(255, 21, 0x355c4bca);
    OneMore(255, 22, 0x052701e6);
    OneMore(255, 23, 0x68e93ba2);
  }

  lemma OneBytes32()
    requires Update(ALL_ONES, seq(24, _ => 255)) == 0xee657f3b
    ensures Update(ALL_ONES, seq(32, _ => 255)) == 0x9d5754bc
  {
    assert ByteSteps(Xor(0xee657f3b, 255)) == 0x04f9d4a4;
    assert ByteSteps(Xor(0x04f9d4a4, 255)) == 0xc8a8883c;
    assert ByteSteps(Xor(0xc8a8883c, 255)) == 0xd0157db8;
    assert ByteSteps(Xor(0xd0157db8, 255)) == 0x95616c2a;
    assert ByteSteps(Xor(0x95616c2a, 255)) == 0xe6b794db;
    assert ByteSteps(Xor(0xe6b794db, 255)) == 0xe7c1ae55;
    assert ByteSteps(Xor(0xe7c1ae55, 255)) == 0xc94e5c30;
    assert ByteSteps(Xor(0xc94e5c30, 255)) == 0x9d5754bc;
    hide ByteSteps, Xor;
    OneMore(255, 24, 0xee657f3b);
    OneMore(255, 25, 0x04f9d4a4);
    OneMore(255, 26, 0xc8a8883c);
    OneMore(255, 27, 0xd0157db8);
    OneMore(255, 28, 0x95616c2a);
    OneMore(255, 29, 0xe6b794db);
    OneMore(255, 30, 0xe7c1ae55);
    OneMore(255, 31, 0xc94e5c30);
  }

  /** The masked form of a checksum: rotated by 15 bits to the right, and moved by 0xa282ead8. */
  lemma MaskValues()
    ensures Mask(0) == 0xa282ead8 && Mask(0x8000) == 0xa282ead9 && Mask(1) == 0xa284ead8
  {
  }
}
