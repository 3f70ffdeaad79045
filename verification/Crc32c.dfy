/** CRC-32C (util/crc32c.cc).  The specification is the bit-at-a-time division by the reflected polynomial of
section 12.1 of RFC 3720; the code uses tables, first a byte at a time, then four interleaved strides. */
module Crc32c {
  import opened Bytes

  type word = bv32

  const POLYNOMIAL: word := 0x82f63b78
  const ALL_ONES: word := 0xffffffff

  // ----- words as vectors over GF(2) -----

  function Xor(a: word, b: word): word {
    a ^ b
  }

  lemma XorAssoc(a: word, b: word, c: word)
    ensures Xor(Xor(a, b), c) == Xor(a, Xor(b, c))
  {
  }

  lemma XorComm(a: word, b: word)
    ensures Xor(a, b) == Xor(b, a)
  {
  }

  lemma XorSelf(a: word)
    ensures Xor(a, a) == 0 && Xor(a, 0) == a && Xor(0, a) == a
  {
  }

  lemma XorSwap(a: word, b: word, c: word)
    ensures Xor(Xor(a, b), c) == Xor(Xor(a, c), b)
  {
    hide Xor;
    XorAssoc(a, b, c);
    XorComm(b, c);
    XorAssoc(a, c, b);
  }

  lemma XorFour(a: word, b: word, c: word, d: word)
    ensures Xor(Xor(a, b), Xor(c, d)) == Xor(Xor(a, c), Xor(b, d))
  {
    hide Xor;
    XorAssoc(Xor(a, b), c, d);
    XorSwap(a, b, c);
    XorAssoc(Xor(a, c), b, d);
  }

  lemma XorCancels(a: word, b: word, c: word)
    ensures Xor(Xor(a, c), Xor(b, c)) == Xor(a, b) && Xor(Xor(a, c), c) == a
  {
    hide Xor;
    XorFour(a, c, b, c);
    XorAssoc(a, c, c);
    XorSelf(c);
    XorSelf(a);
    XorSelf(Xor(a, b));
  }

  /** Byte `k` of a word, the lowest first. */
  function Byte(r: word, k: nat): byte
    requires k < 4
  {
    match k
    case 0 => (r & 0xff) as byte
    case 1 => ((r >> 8) & 0xff) as byte
    case 2 => ((r >> 16) & 0xff) as byte
    case _ => (r >> 24) as byte
  }

  // ----- the specification -----

  function BitStep(r: word): word {
    if r & 1 == 1 then Xor(r >> 1, POLYNOMIAL) else r >> 1
  }

  function ByteSteps(r: word): word {
    BitStep(BitStep(BitStep(BitStep(BitStep(BitStep(BitStep(BitStep(r))))))))
  }

  /** The remainder register after the bytes of `data`. */
  function Update(r: word, data: seq<byte>): word {
    if data == [] then r else ByteSteps(Xor(Update(r, data[..|data| - 1]), data[|data| - 1] as word))
  }

  /** The checksum of `A + data`, where `crc` is the checksum of `A`. */
  function Extended(crc: word, data: seq<byte>): word {
    Xor(Update(Xor(crc, ALL_ONES), data), ALL_ONES)
  }

  // ----- linearity over GF(2) -----

  lemma BitStepIsLinear(a: word, b: word)
    ensures BitStep(Xor(a, b)) == Xor(BitStep(a), BitStep(b))
  {
    LowBitOfXor(a, b);
    hide Xor;
    var x, y := a >> 1, b >> 1;
    XorCancels(x, y, POLYNOMIAL);
    XorSwap(x, POLYNOMIAL, y);
    XorAssoc(x, y, POLYNOMIAL);
  }

  lemma LowBitOfXor(a: word, b: word)
    ensures Xor(a, b) & 1 == 1 <==> ((a & 1 == 1) != (b & 1 == 1))
    ensures Xor(a, b) >> 1 == Xor(a >> 1, b >> 1)
  {
    assert (a ^ b) & 1 == (a & 1) ^ (b & 1);
    assert (a & 1 == 1 || a & 1 == 0) && (b & 1 == 1 || b & 1 == 0);
  }

  lemma ByteStepsIsLinear(a: word, b: word)
    ensures ByteSteps(Xor(a, b)) == Xor(ByteSteps(a), ByteSteps(b))
  {
    hide BitStep, Xor;
    var a1, b1 := BitStep(a), BitStep(b);
    BitStepIsLinear(a, b);
    var a2, b2 := BitStep(a1), BitStep(b1);
    BitStepIsLinear(a1, b1);
    var a3, b3 := BitStep(a2), BitStep(b2);
    BitStepIsLinear(a2, b2);
    var a4, b4 := BitStep(a3), BitStep(b3);
    BitStepIsLinear(a3, b3);
    var a5, b5 := BitStep(a4), BitStep(b4);
    BitStepIsLinear(a4, b4);
    var a6, b6 := BitStep(a5), BitStep(b5);
    BitStepIsLinear(a5, b5);
    var a7, b7 := BitStep(a6), BitStep(b6);
    BitStepIsLinear(a6, b6);
    BitStepIsLinear(a7, b7);
  }

  /** Zero low bits only shift out. */
  lemma ByteStepsShifts(r: word)
    requires r & 0xff == 0
    ensures ByteSteps(r) == r >> 8
  {
  }

  /** The register advanced by `n` zero bytes. */
  function Advance(r: word, n: nat): word {
    if n == 0 then r else ByteSteps(Advance(r, n - 1))
  }

  lemma {:induction false} AdvanceIsLinear(a: word, b: word, n: nat)
    ensures Advance(Xor(a, b), n) == Xor(Advance(a, n), Advance(b, n))
  {
    hide ByteSteps, Xor;
    if n > 0 {
      AdvanceIsLinear(a, b, n - 1);
      ByteStepsIsLinear(Advance(a, n - 1), Advance(b, n - 1));
    }
  }

  lemma {:induction false} AdvanceAdds(r: word, m: nat, n: nat)
    ensures Advance(Advance(r, m), n) == Advance(r, m + n)
  {
    hide ByteSteps;
    if n > 0 {
      AdvanceAdds(r, m, n - 1);
    }
  }

  lemma UpdateNothing(r: word)
    ensures Update(r, []) == r
  {
  }

  lemma ExtendedIs(crc: word, data: seq<byte>)
    ensures Extended(crc, data) == Xor(Update(Xor(crc, ALL_ONES), data), ALL_ONES)
  {
  }

  lemma UpdateByte(r: word, data: seq<byte>, p: nat)
    requires p < |data|
    ensures Update(r, data[..p + 1]) == ByteSteps(Xor(Update(r, data[..p]), data[p] as word))
  {
    assert data[..p + 1][..p] == data[..p];
  }

  lemma {:induction false} UpdateAppends(r: word, a: seq<byte>, b: seq<byte>)
    ensures Update(r, a + b) == Update(Update(r, a), b)
  {
    hide ByteSteps, Xor;
    if b == [] {
      assert a + b == a;
    } else {
      var b' := b[..|b| - 1];
      UpdateAppends(r, a, b');
      assert (a + b)[..|a + b| - 1] == a + b';
      assert (a + b)[|a + b| - 1] == b[|b| - 1];
    }
  }

  /** The checksum of a concatenation can be computed piecewise. */
  lemma ExtendComposes(crc: word, a: seq<byte>, b: seq<byte>)
    ensures Extended(Extended(crc, a), b) == Extended(crc, a + b)
  {
    hide Xor;
    UpdateAppends(Xor(crc, ALL_ONES), a, b);
    XorCancels(Update(Xor(crc, ALL_ONES), a), 0, ALL_ONES);
  }

  // ----- the tables -----

  /** A table of 256 words. */
  type Table = byte -> word

  datatype Tables = Tables(byteExtension: Table, stride0: Table, stride1: Table, stride2: Table, stride3: Table)

  function ByteEntry(b: byte): word {
    ByteSteps(b as word)
  }

  /** The register after 16 zero bytes from byte `k` of a word. */
  function StrideEntry(b: byte, k: nat): word
    requires k < 4
  {
    Advance(Placed(b, k), 16)
  }

  function Placed(b: byte, k: nat): word
    requires k < 4
  {
    match k
    case 0 => b as word
    case 1 => (b as word) << 8
    case 2 => (b as word) << 16
    case _ => (b as word) << 24
  }

  /** What the tables hold: the register after 1 zero byte, and after 16 zero bytes from each byte of a word. */
  ghost predicate GoodTables(t: Tables) {
    && (forall b :: t.byteExtension(b) == ByteEntry(b))
    && (forall b :: t.stride0(b) == StrideEntry(b, 3))
    && (forall b :: t.stride1(b) == StrideEntry(b, 2))
    && (forall b :: t.stride2(b) == StrideEntry(b, 1))
    && (forall b :: t.stride3(b) == StrideEntry(b, 0))
  }

  lemma GoodTablesExist()
    ensures exists t :: GoodTables(t)
  {
    hide ByteEntry, StrideEntry;
    assert GoodTables(Tables(ByteEntry, b => StrideEntry(b, 3), b => StrideEntry(b, 2), b => StrideEntry(b, 1),
                             b => StrideEntry(b, 0)));
  }

  /** The table step of a register, as `STEP1` and `STEP4W` make it. */
  function TableStep(t: Tables, r: word): word {
    Xor(t.byteExtension(Byte(r, 0)), r >> 8)
  }

  /** `kStrideExtensionTable3[c & 0xff] ^ ... ^ kStrideExtensionTable0[c >> 24]` */
  function StrideStep(t: Tables, c: word): word {
    Xor(Xor(Xor(t.stride3(Byte(c, 0)), t.stride2(Byte(c, 1))), t.stride1(Byte(c, 2))), t.stride0(Byte(c, 3)))
  }

  lemma SplitLow(r: word)
    ensures r == Xor(Byte(r, 0) as word, r & 0xffffff00)
    ensures (r & 0xffffff00) & 0xff == 0 && (r & 0xffffff00) >> 8 == r >> 8
  {
  }

  lemma SplitWord(c: word)
    ensures c == Xor(Xor(Xor(Placed(Byte(c, 0), 0), Placed(Byte(c, 1), 1)), Placed(Byte(c, 2), 2)),
                     Placed(Byte(c, 3), 3))
  {
  }

  lemma ByteEntryAt(t: Tables, b: byte)
    requires GoodTables(t)
    ensures t.byteExtension(b) == ByteSteps(b as word)
  {
    hide ByteSteps;
    assert t.byteExtension(b) == ByteEntry(b);
  }

  lemma TableStepIsByteSteps(t: Tables, r: word)
    requires GoodTables(t)
    ensures TableStep(t, r) == ByteSteps(r)
  {
    hide Xor, ByteSteps, Byte, GoodTables;
    ByteEntryAt(t, Byte(r, 0));
    SplitLow(r);
    var high := r & 0xffffff00;
    ByteStepsIsLinear(Byte(r, 0) as word, high);
    ByteStepsShifts(high);
  }

  lemma StrideStepIsAdvance(t: Tables, c: word)
    requires GoodTables(t)
    ensures StrideStep(t, c) == Advance(c, 16)
  {
    hide Xor, Advance, Byte, Placed;
    SplitWord(c);
    var b0, b1, b2, b3 := Placed(Byte(c, 0), 0), Placed(Byte(c, 1), 1), Placed(Byte(c, 2), 2), Placed(Byte(c, 3), 3);
    AdvanceIsLinear(b0, b1, 16);
    AdvanceIsLinear(Xor(b0, b1), b2, 16);
    AdvanceIsLinear(Xor(Xor(b0, b1), b2), b3, 16);
  }

  // ----- words and strides -----

  /** `ReadUint32LE` */
  function LittleEndian(b0: byte, b1: byte, b2: byte, b3: byte): word {
    (b0 as word) | ((b1 as word) << 8) | ((b2 as word) << 16) | ((b3 as word) << 24)
  }

  function ReadWord(data: seq<byte>, p: nat): word
    requires p + 4 <= |data|
  {
    LittleEndian(data[p], data[p + 1], data[p + 2], data[p + 3])
  }

  lemma ShiftUp(w: word)
    requires w <= 0xffffff
    ensures (w << 8) & 0xff == 0 && (w << 8) >> 8 == w
  {
  }

  lemma PeelByte(r: word, b: word, w: word)
    requires w <= 0xffffff
    ensures ByteSteps(Xor(r, Xor(b, w << 8))) == Xor(ByteSteps(Xor(r, b)), w)
  {
    hide Xor, ByteSteps;
    ShiftUp(w);
    var high := w << 8;
    XorAssoc(r, b, high);
    ByteStepsIsLinear(Xor(r, b), high);
    ByteStepsShifts(high);
  }

  lemma SplitLittleEndian(b0: byte, b1: byte, b2: byte, b3: byte) returns (w1: word, w2: word)
    ensures w2 == Xor(b2 as word, (b3 as word) << 8) && w1 == Xor(b1 as word, w2 << 8)
    ensures LittleEndian(b0, b1, b2, b3) == Xor(b0 as word, w1 << 8)
    ensures w1 <= 0xffffff && w2 <= 0xffffff && b3 as word <= 0xffffff
  {
    w2 := Xor(b2 as word, (b3 as word) << 8);
    w1 := Xor(b1 as word, w2 << 8);
  }

  /** A whole word at once. */
  lemma WordIsFourBytes(r: word, data: seq<byte>)
    requires |data| == 4
    ensures Update(r, data) == Advance(Xor(r, ReadWord(data, 0)), 4)
  {
    hide Xor, ByteSteps, LittleEndian, Update, Advance;
    var x0, x1, x2, x3 := data[0] as word, data[1] as word, data[2] as word, data[3] as word;
    var w1, w2 := SplitLittleEndian(data[0], data[1], data[2], data[3]);
    FourUpdates(r, data);
    FourSteps(Xor(r, ReadWord(data, 0)));
    FourPeels(r, x0, x1, x2, x3, w1, w2);
  }

  lemma FourPeels(r: word, x0: word, x1: word, x2: word, x3: word, w1: word, w2: word)
    requires w2 == Xor(x2, x3 << 8) && w1 == Xor(x1, w2 << 8) && w1 <= 0xffffff && w2 <= 0xffffff && x3 <= 0xffffff
    ensures ByteSteps(ByteSteps(ByteSteps(ByteSteps(Xor(r, Xor(x0, w1 << 8))))))
         == ByteSteps(Xor(ByteSteps(Xor(ByteSteps(Xor(ByteSteps(Xor(r, x0)), x1)), x2)), x3))
  {
    hide Xor, ByteSteps;
    var r1 := ByteSteps(Xor(r, x0));
    var r2 := ByteSteps(Xor(r1, x1));
    PeelByte(r, x0, w1);
    PeelByte(r1, x1, w2);
    PeelByte(r2, x2, x3);
  }

  lemma FourSteps(r: word)
    ensures Advance(r, 4) == ByteSteps(ByteSteps(ByteSteps(ByteSteps(r))))
  {
    hide ByteSteps;
    assert Advance(r, 1) == ByteSteps(Advance(r, 0));
    assert Advance(r, 2) == ByteSteps(Advance(r, 1));
    assert Advance(r, 3) == ByteSteps(Advance(r, 2));
  }

  lemma FourUpdates(r: word, data: seq<byte>)
    requires |data| == 4
    ensures var first := ByteSteps(Xor(ByteSteps(Xor(r, data[0] as word)), data[1] as word));
            Update(r, data) == ByteSteps(Xor(ByteSteps(Xor(first, data[2] as word)), data[3] as word))
  {
    hide Xor, ByteSteps, Update;
    assert data[..0] == [] && data[..4] == data;
    UpdateNothing(r);
    UpdateByte(r, data, 0);
    UpdateByte(r, data, 1);
    UpdateByte(r, data, 2);
    UpdateByte(r, data, 3);
  }

  /** The register that four strides stand for. */
  function Combined(c0: word, c1: word, c2: word, c3: word): word {
    Advance(Xor(Advance(Xor(Advance(Xor(Advance(c0, 4), c1), 4), c2), 4), c3), 4)
  }

  lemma CombinedIs(c0: word, c1: word, c2: word, c3: word)
    ensures Combined(c0, c1, c2, c3) == Advance(Xor(Advance(Xor(Advance(Xor(Advance(c0, 4), c1), 4), c2), 4), c3), 4)
  {
  }

  lemma CombinedSplits(c0: word, c1: word, c2: word, c3: word)
    ensures Combined(c0, c1, c2, c3) == Xor(Advance(c0, 16), Advance(Xor(Advance(Xor(Advance(c1, 4), c2), 4), c3), 4))
  {
    hide Xor, Advance;
    var q1 := Advance(c1, 4);
    var q2 := Advance(Xor(q1, c2), 4);
    var a1, a2, a3 := Advance(c0, 4), Advance(c0, 8), Advance(c0, 12);
    AdvanceAdds(c0, 4, 4); AdvanceAdds(c0, 8, 4); AdvanceAdds(c0, 12, 4);
    AdvanceIsLinear(a1, c1, 4);
    XorAssoc(a2, q1, c2);
    AdvanceIsLinear(a2, Xor(q1, c2), 4);
    XorAssoc(a3, q2, c3);
    AdvanceIsLinear(a3, Xor(q2, c3), 4);
  }

  /** The next word goes to the oldest stride, and the strides change places. */
  lemma StrideTakesWord(c0: word, c1: word, c2: word, c3: word, w: word)
    ensures Combined(c1, c2, c3, Xor(w, Advance(c0, 16))) == Advance(Xor(Combined(c0, c1, c2, c3), w), 4)
  {
    hide Xor, Advance;
    CombinedSplits(c0, c1, c2, c3);
    var s := Advance(c0, 16);
    var q := Advance(Xor(Advance(Xor(Advance(c1, 4), c2), 4), c3), 4);
    XorComm(w, s);
    XorAssoc(q, s, w);
    XorComm(q, s);
  }

  lemma UpdateWord(r: word, data: seq<byte>, p: nat)
    requires p + 4 <= |data|
    ensures Update(r, data[..p + 4]) == Advance(Xor(Update(r, data[..p]), ReadWord(data, p)), 4)
  {
    hide Xor, Advance, LittleEndian, Update;
    var w := data[p..p + 4];
    assert data[..p + 4] == data[..p] + w;
    UpdateAppends(r, data[..p], w);
    WordIsFourBytes(Update(r, data[..p]), w);
  }

  lemma StridesTakeWord(t: Tables, r: word, data: seq<byte>, p: nat, c0: word, c1: word, c2: word, c3: word)
    requires GoodTables(t)
    requires p + 4 <= |data| && Combined(c0, c1, c2, c3) == Update(r, data[..p])
    ensures Combined(c1, c2, c3, Xor(ReadWord(data, p), StrideStep(t, c0))) == Update(r, data[..p + 4])
  {
    hide *;
    StrideStepIsAdvance(t, c0);
    StrideTakesWord(c0, c1, c2, c3, ReadWord(data, p));
    UpdateWord(r, data, p);
  }

  lemma StridesTake16(t: Tables, r: word, data: seq<byte>, p: nat, c0: word, c1: word, c2: word, c3: word)
    requires GoodTables(t)
    requires p + 16 <= |data| && Combined(c0, c1, c2, c3) == Update(r, data[..p])
    ensures Combined(Xor(ReadWord(data, p), StrideStep(t, c0)), Xor(ReadWord(data, p + 4), StrideStep(t, c1)),
                     Xor(ReadWord(data, p + 8), StrideStep(t, c2)), Xor(ReadWord(data, p + 12), StrideStep(t, c3)))
            == Update(r, data[..p + 16])
  {
    hide Combined, Xor, StrideStep, Update, ReadWord, GoodTables;
    var d0, d1, d2 := Xor(ReadWord(data, p), StrideStep(t, c0)), Xor(ReadWord(data, p + 4), StrideStep(t, c1)),
        Xor(ReadWord(data, p + 8), StrideStep(t, c2));
    StridesTakeWord(t, r, data, p, c0, c1, c2, c3);
    StridesTakeWord(t, r, data, p + 4, c1, c2, c3, d0);
    StridesTakeWord(t, r, data, p + 8, c2, c3, d0, d1);
    StridesTakeWord(t, r, data, p + 12, c3, d0, d1, d2);
  }

  lemma StridesBegin(r: word, data: seq<byte>, p: nat)
    requires p + 16 <= |data|
    ensures var l := Update(r, data[..p]);
            Combined(Xor(ReadWord(data, p), l), ReadWord(data, p + 4), ReadWord(data, p + 8), ReadWord(data, p + 12))
            == Update(r, data[..p + 16])
  {
    hide Xor, Advance, LittleEndian, Update, ReadWord;
    XorComm(ReadWord(data, p), Update(r, data[..p]));
    UpdateWord(r, data, p);
    UpdateWord(r, data, p + 4);
    UpdateWord(r, data, p + 8);
    UpdateWord(r, data, p + 12);
  }

  // ----- the code -----

  /** `RoundUp<4>` */
  function RoundUp(address: nat): (x: nat)
    ensures address <= x < address + 4 && x % 4 == 0
  {
    (address + 3) / 4 * 4
  }

  /** `(l & 0xff) ^ *p++` */
  function Step1Index(l: word, b: byte): byte {
    ((l & 0xff) as byte) ^ b
  }

  lemma Step1IndexIs(l: word, b: byte)
    ensures Step1Index(l, b) == Byte(Xor(l, b as word), 0)
    ensures Xor(l, b as word) >> 8 == l >> 8
  {
  }

  /** `STEP1` */
  function Step1(t: Tables, l: word, b: byte): word {
    Xor(t.byteExtension(Step1Index(l, b)), l >> 8)
  }

  lemma Step1IsTableStep(t: Tables, l: word, b: byte)
    ensures Step1(t, l, b) == TableStep(t, Xor(l, b as word))
  {
    hide Xor, Byte, Step1Index;
    Step1IndexIs(l, b);
  }

  lemma Step1IsByteSteps(t: Tables, l: word, b: byte)
    requires GoodTables(t)
    ensures Step1(t, l, b) == ByteSteps(Xor(l, b as word))
  {
    hide *;
    Step1IsTableStep(t, l, b);
    TableStepIsByteSteps(t, Xor(l, b as word));
  }

  lemma Step1TakesByte(t: Tables, r: word, data: seq<byte>, p: nat)
    requires GoodTables(t) && p < |data|
    ensures Step1(t, Update(r, data[..p]), data[p]) == Update(r, data[..p + 1])
  {
    hide *;
    Step1IsByteSteps(t, Update(r, data[..p]), data[p]);
    UpdateByte(r, data, p);
  }

  /** `STEP4W` */
  method Step4W(t: Tables, w0: word, l: word) returns (l': word)
    requires GoodTables(t)
    ensures l' == Advance(Xor(l, w0), 4)
  {
    hide Xor, ByteSteps, GoodTables;
    var w := Xor(w0, l);
    XorComm(w0, l);
    for i := 0 to 4
      invariant w == Advance(Xor(l, w0), i)
    {
      TableStepIsByteSteps(t, w);
      w := TableStep(t, w);
    }
    return w;
  }

  /** The block of `Extend` that works on whole words, from position `start`. */
  method ExtendByStrides(t: Tables, ghost r: word, data: seq<byte>, start: nat, l0: word) returns (p: nat, l: word)
    requires GoodTables(t) && start + 16 <= |data| && l0 == Update(r, data[..start])
    ensures start <= p <= |data| && l == Update(r, data[..p])
  {
    hide *;
    p, l := start, l0;
    StridesBegin(r, data, p);
    var crc0 := Xor(ReadWord(data, p), l);
    var crc1 := ReadWord(data, p + 4);
    var crc2 := ReadWord(data, p + 8);
    var crc3 := ReadWord(data, p + 12);
    p := p + 16;
    while |data| - p >= 16
      invariant 0 <= p <= |data| && Combined(crc0, crc1, crc2, crc3) == Update(r, data[..p])
    {
      StridesTake16(t, r, data, p, crc0, crc1, crc2, crc3);
      crc0 := Xor(ReadWord(data, p), StrideStep(t, crc0));
      crc1 := Xor(ReadWord(data, p + 4), StrideStep(t, crc1));
      crc2 := Xor(ReadWord(data, p + 8), StrideStep(t, crc2));
      crc3 := Xor(ReadWord(data, p + 12), StrideStep(t, crc3));
      p := p + 16;
    }
    while |data| - p >= 4
      invariant 0 <= p <= |data| && Combined(crc0, crc1, crc2, crc3) == Update(r, data[..p])
    {
      StridesTakeWord(t, r, data, p, crc0, crc1, crc2, crc3);
      crc0 := Xor(ReadWord(data, p), StrideStep(t, crc0));
      var tmp := crc0;
      crc0 := crc1;
      crc1 := crc2;
      crc2 := crc3;
      crc3 := tmp;
      p := p + 4;
    }
    XorSelf(crc0);
    l := 0;
    l := Step4W(t, crc0, l);
    l := Step4W(t, crc1, l);
    l := Step4W(t, crc2, l);
    l := Step4W(t, crc3, l);
    CombinedIs(crc0, crc1, crc2, crc3);
    return p, l;
  }

  /** `Extend` at any address: the same as dividing bit by bit. */
  method Extend(t: Tables, crc: word, data: seq<byte>, address: nat) returns (extended: word)
    requires GoodTables(t)
    ensures extended == Extended(crc, data)
  {
    ExtendedIs(crc, data);
    hide *;
    var l := Xor(crc, ALL_ONES);
    ghost var r := l;
    assert data[..0] == [];
    UpdateNothing(r);
    var p := 0;
    var x := RoundUp(address) - address;
    if x <= |data| {
      while p != x
        invariant 0 <= p <= x && l == Update(r, data[..p])
      {
        Step1TakesByte(t, r, data, p);
        l := Step1(t, l, data[p]);
        p := p + 1;
      }
    }
    if |data| - p >= 16 {
      p, l := ExtendByStrides(t, r, data, p, l);
    }
    while p != |data|
      invariant 0 <= p <= |data| && l == Update(r, data[..p])
      decreases |data| - p
    {
      Step1TakesByte(t, r, data, p);
      l := Step1(t, l, data[p]);
      p := p + 1;
    }
    assert data[..p] == data;
    return Xor(l, ALL_ONES);
  }

  // ----- storing a checksum -----

  const MASK_DELTA: word := 0xa282ead8

  function Mask(crc: word): word {
    ((crc >> 15) | (crc << 17)) + MASK_DELTA
  }

  function Unmask(masked: word): word {
    var rot := masked - MASK_DELTA;
    (rot >> 17) | (rot << 15)
  }

  lemma MaskRoundTrip(crc: word)
    ensures Unmask(Mask(crc)) == crc && Mask(Unmask(crc)) == crc
  {
  }
}
