/** The bytes of the encodings: laws of numbers for all of them, and literal examples of each format. */
module Formats {
  import opened Common
  import opened Bytes
  import opened Coding
  import Crc32c
  import LogFormat
  import WriteBatches
  import EditCodec
  import BlockFormat

  // ----- numbers -----

  /** The groups of seven bits, the lowest first, and the bit that says that more follow. */
  lemma {:induction false} VarintDigits(v: nat, i: nat)
    requires i < |Varint(v)|
    ensures NatOf(Varint(v)[i]) == v / Power128(i) % 128 + if i + 1 < |Varint(v)| then 128 else 0
  {
    hide ByteOf, NatOf;
    if v < 128 {
      ByteRoundTrip(v);
    } else {
      ByteRoundTrip(128 + v % 128);
      if i > 0 {
        VarintDigits(v / 128, i - 1);
        DivideTwice(v, 128, Power128(i - 1));
      }
    }
  }

  lemma DivideTwice(v: nat, a: nat, b: nat)
    requires a > 0 && b > 0
    ensures a * b > 0 && v / a / b == v / (a * b)
  {
    var x, r := v / a, v % a;
    var q, s := x / b, x % b;
    TwoRemainders(v, a, b, x, r, q, s);
  }

  lemma TwoRemainders(v: nat, a: nat, b: nat, x: nat, r: nat, q: nat, s: nat)
    requires v == a * x + r && r < a && x == b * q + s && s < b
    ensures a * b > 0 && v / (a * b) == q
  {
    var d := a * b;
    Distributes(a, b, q, s);
    RemaindersFit(a, b, r, s);
    DivisionIs(v, d, q, a * s + r);
  }

  lemma Distributes(a: nat, b: nat, q: nat, r: nat)
    ensures a * (b * q + r) == a * b * q + a * r
  {
  }

  lemma RemaindersFit(a: nat, b: nat, r: nat, s: nat)
    requires r < a && s < b
    ensures a * s + r < a * b
  {
    assert a * (s + 1) == a * s + a;
    Monotone(a, s + 1, b);
  }

  /** No group is left out and none is wasted. */
  lemma {:induction false} VarintLength(v: nat)
    ensures var n := |Varint(v)|; v < Power128(n) && n > 0 && (n > 1 ==> v >= Power128(n - 1))
  {
    if v >= 128 {
      VarintLength(v / 128);
    }
  }

  /** The bytes of a number, the lowest first. */
  lemma {:induction false} FixedDigits(n: nat, k: nat, i: nat)
    requires i < k
    ensures NatOf(Fixed(n, k)[i]) == n / Power256(i) % 256
  {
    hide ByteOf, NatOf;
    ByteRoundTrip(n % 256);
    if i > 0 {
      FixedDigits(n / 256, k - 1, i - 1);
      DivideTwice(n, 256, Power256(i - 1));
    }
  }

  /** The number of a varint. */
  function Groups(p: seq<byte>): nat {
    if p == [] then 0 else NatOf(p[0]) % 128 + 128 * Groups(p[1..])
  }

  /** What is read, of any bytes: the groups up to the first byte without the top bit, if there are not too many. */
  lemma {:induction false} ParseIs(p: seq<byte>, rest: seq<byte>, count: nat)
    requires p != [] && NatOf(p[|p| - 1]) < 128 && forall k :: 0 <= k < |p| - 1 ==> NatOf(p[k]) >= 128
    ensures ParseVarint(p + rest, count) == if |p| <= count then Parsed(Groups(p), rest) else NotParsed
  {
    hide NatOf;
    NatOfBelow(p[0]);
    assert (p + rest)[1..] == p[1..] + rest;
    if |p| > 1 && count > 0 {
      ParseIs(p[1..], rest, count - 1);
    }
  }

  lemma {:induction false} NothingParsed(input: seq<byte>, count: nat)
    requires forall k :: 0 <= k < |input| ==> NatOf(input[k]) >= 128
    ensures ParseVarint(input, count) == NotParsed
  {
    hide NatOf;
    if input != [] && count > 0 {
      NothingParsed(input[1..], count - 1);
    }
  }

  // ----- the log -----

  /** The record "a" at the start of a file: the masked checksum of its type and payload, the length, the type FULL, and
      the payload. */
  lemma LogRecord()
    ensures LogFormat.LogBytes([[0x61]], 0) == [0xb5, 0xcd, 0x0b, 0xa2, 1, 0, 1, 0x61]
  {
    LogFragment();
    hide LogFormat.Fragment;
    LogFormat.LogBytesOne([0x61], 0);
    assert LogFormat.Fit([0x61], 0) == 1 && LogFormat.Pad(0) == 0;
    assert [0x61 as byte][..1] == [0x61];
  }

  lemma LogFragment()
    ensures LogFormat.Fragment(1, [0x61]) == [0xb5, 0xcd, 0x0b, 0xa2, 1, 0, 1, 0x61]
  {
    LogChecksum();
    LogNumbers();
    hide Crc32c.Mask, LogFormat.FragmentCrc, LogFormat.Fixed32, LogFormat.LengthBytes;
  }

  lemma LogNumbers()
    ensures LogFormat.Fixed32(0xa20bcdb5) == [0xb5, 0xcd, 0x0b, 0xa2] && LogFormat.LengthBytes(1) == [1, 0]
  {
    SmallNumbers();
    hide ByteOf;
  }

  /** Blocks of 32768 bytes, headers of 7, and the numbers of the fragment types. */
  lemma LogLayout(p: nat)
    ensures var left := 32768 - p % 32768;
            if left < 7 then LogFormat.Start(p) == p + left && LogFormat.Avail(p) == 32761
            else LogFormat.Start(p) == p && LogFormat.Avail(p) == left - 7
    ensures LogFormat.TypeOf(true, true) == 1 && LogFormat.TypeOf(true, false) == 2
    ensures LogFormat.TypeOf(false, false) == 3 && LogFormat.TypeOf(false, true) == 4
  {
    if 32768 - p % 32768 < 7 {
      assert (p + (32768 - p % 32768)) % 32768 == 0;
    }
  }

  lemma LogChecksum()
    ensures Crc32c.Mask(LogFormat.FragmentCrc(1, [0x61])) == 0xa20bcdb5
  {
    var first: seq<byte>, second: seq<byte> := [1], [0x61];
    Steps();
    assert Crc32c.Mask(0x716effc4) == 0xa20bcdb5;
    hide Crc32c.ByteSteps, Crc32c.Xor, Crc32c.Mask;
    OneByte(0xffffffff, 1);
    OneByte(0x5fe92fad, 0x61);
    assert Crc32c.Extended(0, first) == 0xa016d052;
    assert Crc32c.Extended(0xa016d052, second) == 0x716effc4;
  }

  lemma OneByte(r: Crc32c.word, b: byte)
    ensures Crc32c.Update(r, [b]) == Crc32c.ByteSteps(Crc32c.Xor(r, b as Crc32c.word))
  {
    hide Crc32c.ByteSteps, Crc32c.Xor;
    assert [b][..0] == [];
    assert Crc32c.Update(r, []) == r;
  }

  lemma Steps()
    ensures Crc32c.ByteSteps(Crc32c.Xor(0xffffffff, 1)) == 0x5fe92fad
    ensures Crc32c.ByteSteps(Crc32c.Xor(0x5fe92fad, 0x61)) == 0x8e91003b
    ensures Crc32c.Xor(0, Crc32c.ALL_ONES) == 0xffffffff
    ensures Crc32c.Xor(0x5fe92fad, Crc32c.ALL_ONES) == 0xa016d052
    ensures Crc32c.Xor(0xa016d052, Crc32c.ALL_ONES) == 0x5fe92fad
    ensures Crc32c.Xor(0x8e91003b, Crc32c.ALL_ONES) == 0x716effc4
  {
  }

  // ----- write batches -----

  const PUT := WriteBatches.Put([0x6b], [0x76, 0x77])
  const DELETE := WriteBatches.Delete([0x6c])

  /** A put and a deletion, numbered from 100. */
  lemma BatchRecord()
    ensures WriteBatches.BatchBytes(100, [PUT, DELETE]) ==
            [100, 0, 0, 0, 0, 0, 0, 0, 2, 0, 0, 0, 1, 1, 0x6b, 2, 0x76, 0x77, 0, 1, 0x6c]
  {
    BatchHeader();
    BatchOps();
    hide Fixed, WriteBatches.OpsBytes;
  }

  lemma BatchHeader()
    ensures Fixed(100, 8) == [100, 0, 0, 0, 0, 0, 0, 0] && Fixed(2, 4) == [2, 0, 0, 0]
  {
    SmallNumbers();
    hide ByteOf, Fixed;
    ZeroRest(100, 8);
    ZeroRest(2, 4);
  }

  lemma BatchOps()
    ensures WriteBatches.OpsBytes([PUT, DELETE]) == [1, 1, 0x6b, 2, 0x76, 0x77, 0, 1, 0x6c]
  {
    DigitVarints();
    hide Varint;
    assert WriteBatches.OpBytes(PUT) == [1, 1, 0x6b, 2, 0x76, 0x77];
    assert WriteBatches.OpBytes(DELETE) == [0, 1, 0x6c];
    hide WriteBatches.OpBytes;
    WriteBatches.OpsBytesAppend([PUT], [DELETE]);
    assert [PUT] + [DELETE] == [PUT, DELETE];
    assert WriteBatches.OpsBytes([]) == [] && [DELETE][1..] == [] && [PUT][1..] == [];
  }

  lemma SmallNumbers()
    ensures ByteOf(0) == 0 && ByteOf(1) == 1 && ByteOf(2) == 2 && ByteOf(3) == 3 && ByteOf(100) == 100
  {
  }

  lemma ZeroRest(n: nat, k: nat)
    requires n < 256 && k > 0
    ensures Fixed(n, k) == [ByteOf(n)] + seq(k - 1, _ => 0)
  {
    WriteBatches.ZeroFixed(k - 1);
  }

  // ----- version edits -----

  const FILE := EditCodec.File(8, 9, [0x61], [0x62])
  const EDIT := EditCodec.Edit(Some([0x63]), Some(2), Some(9), Some(3), Some(4), [(5, [0x6b])],
                               [EditCodec.Deleted(1, 6)], [(2, FILE)])

  const NUMBERS := [EditCodec.Comparator([0x63]), EditCodec.LogNumber(2), EditCodec.PrevLogNumber(9),
                    EditCodec.NextFileNumber(3)]
  const OTHERS := [EditCodec.LastSequence(4), EditCodec.CompactPointer(5, [0x6b]),
                   EditCodec.DeletedFile(EditCodec.Deleted(1, 6)), EditCodec.NewFile(2, FILE)]

  /** An edit with a record of every kind, in the order in which they are written. */
  lemma EditRecord()
    ensures EditCodec.ItemsBytes(EditCodec.ItemsOf(EDIT)) ==
            [1, 1, 0x63, 2, 2, 9, 9, 3, 3, 4, 4, 5, 5, 1, 0x6b, 6, 1, 6, 7, 2, 8, 9, 1, 0x61, 1, 0x62]
  {
    EditItems();
    FirstRecords();
    LastRecords();
    hide EditCodec.ItemsBytes, EditCodec.ItemsOf;
  }

  lemma EditItems()
    ensures EditCodec.ItemsOf(EDIT) == NUMBERS + OTHERS
  {
    assert EditCodec.Pointers(EDIT) == [OTHERS[1]] && EditCodec.Deletions(EDIT) == [OTHERS[2]];
    assert EditCodec.Additions(EDIT) == [OTHERS[3]];
  }

  lemma FirstRecords()
    ensures EditCodec.ItemsBytes(NUMBERS + OTHERS) == [1, 1, 0x63, 2, 2, 9, 9, 3, 3] + EditCodec.ItemsBytes(OTHERS)
  {
    NumberRecords();
    FourItems(NUMBERS[0], NUMBERS[1], NUMBERS[2], NUMBERS[3], OTHERS);
    hide EditCodec.ItemBytes, EditCodec.ItemsBytes;
    assert NUMBERS == [NUMBERS[0], NUMBERS[1], NUMBERS[2], NUMBERS[3]];
  }

  lemma LastRecords()
    ensures EditCodec.ItemsBytes(OTHERS) == [4, 4, 5, 5, 1, 0x6b, 6, 1, 6, 7, 2, 8, 9, 1, 0x61, 1, 0x62]
  {
    FileRecords();
    FourItems(OTHERS[0], OTHERS[1], OTHERS[2], OTHERS[3], []);
    assert EditCodec.ItemsBytes([]) == [];
    hide EditCodec.ItemBytes, EditCodec.ItemsBytes;
    assert OTHERS == [OTHERS[0], OTHERS[1], OTHERS[2], OTHERS[3]] + [];
  }

  lemma NumberRecords()
    ensures EditCodec.ItemBytes(EditCodec.Comparator([0x63])) == [1, 1, 0x63]
    ensures EditCodec.ItemBytes(EditCodec.LogNumber(2)) == [2, 2]
    ensures EditCodec.ItemBytes(EditCodec.PrevLogNumber(9)) == [9, 9]
    ensures EditCodec.ItemBytes(EditCodec.NextFileNumber(3)) == [3, 3]
  {
    DigitVarints();
    hide Varint;
  }

  lemma FileRecords()
    ensures EditCodec.ItemBytes(EditCodec.LastSequence(4)) == [4, 4]
    ensures EditCodec.ItemBytes(EditCodec.CompactPointer(5, [0x6b])) == [5, 5, 1, 0x6b]
    ensures EditCodec.ItemBytes(EditCodec.DeletedFile(EditCodec.Deleted(1, 6))) == [6, 1, 6]
    ensures EditCodec.ItemBytes(EditCodec.NewFile(2, FILE)) == [7, 2, 8, 9, 1, 0x61, 1, 0x62]
  {
    DigitVarints();
    hide Varint;
  }

  lemma FourItems(a: EditCodec.Item, b: EditCodec.Item, c: EditCodec.Item, d: EditCodec.Item, rest: seq<EditCodec.Item>)
    ensures EditCodec.ItemsBytes([a, b, c, d] + rest) ==
            EditCodec.ItemBytes(a) + EditCodec.ItemBytes(b) + EditCodec.ItemBytes(c) + EditCodec.ItemBytes(d)
            + EditCodec.ItemsBytes(rest)
  {
    hide EditCodec.ItemBytes;
    assert ([a, b, c, d] + rest)[1..] == [b, c, d] + rest;
    assert ([b, c, d] + rest)[1..] == [c, d] + rest;
    assert ([c, d] + rest)[1..] == [d] + rest;
    assert ([d] + rest)[1..] == rest;
    assert EditCodec.ItemsBytes([d] + rest) == EditCodec.ItemBytes(d) + EditCodec.ItemsBytes(rest);
    assert EditCodec.ItemsBytes([c, d] + rest) == EditCodec.ItemBytes(c) + EditCodec.ItemsBytes([d] + rest);
    assert EditCodec.ItemsBytes([b, c, d] + rest) == EditCodec.ItemBytes(b) + EditCodec.ItemsBytes([c, d] + rest);
    assert EditCodec.ItemsBytes([a, b, c, d] + rest) == EditCodec.ItemBytes(a) + EditCodec.ItemsBytes([b, c, d] + rest);
  }

  lemma DigitVarints()
    ensures Varint(0) == [0] && Varint(1) == [1] && Varint(2) == [2] && Varint(3) == [3] && Varint(4) == [4]
    ensures Varint(5) == [5] && Varint(6) == [6] && Varint(7) == [7] && Varint(8) == [8] && Varint(9) == [9]
  {
    DigitBytes();
    hide ByteOf;
  }

  lemma DigitBytes()
    ensures ByteOf(0) == 0 && ByteOf(1) == 1 && ByteOf(2) == 2 && ByteOf(3) == 3 && ByteOf(4) == 4 && ByteOf(5) == 5
    ensures ByteOf(6) == 6 && ByteOf(7) == 7 && ByteOf(8) == 8 && ByteOf(9) == 9
  {
  }

  // ----- blocks -----

  /** Two entries whose keys share two bytes, one restart point and the number of restart points. */
  lemma Block()
    ensures var first := BlockFormat.Entry([0x61, 0x62, 0x63], [1]);
            var second := BlockFormat.Entry([0x61, 0x62, 0x64], [2, 3]);
            BlockFormat.BlockBytes(BlockFormat.EntryBytes(0, first) + BlockFormat.EntryBytes(2, second), [0]) ==
            [0, 3, 1, 0x61, 0x62, 0x63, 1, 2, 1, 2, 0x64, 2, 3, 0, 0, 0, 0, 1, 0, 0, 0]
  {
    FirstEntry();
    SecondEntry();
    RestartBytes();
    hide BlockFormat.EntryBytes, BlockFormat.RestartArray, Fixed;
  }

  lemma RestartBytes()
    ensures BlockFormat.RestartArray([0]) == [0, 0, 0, 0] && Fixed(1, 4) == [1, 0, 0, 0]
  {
    SmallNumbers();
    hide ByteOf, Fixed;
    ZeroRest(0, 4);
    ZeroRest(1, 4);
    assert BlockFormat.RestartArray([]) == [];
    assert [0][..0] == [] && BlockFormat.RestartArray([0]) == BlockFormat.RestartArray([]) + Fixed(0, 4);
  }

  lemma FirstEntry()
    ensures BlockFormat.EntryBytes(0, BlockFormat.Entry([0x61, 0x62, 0x63], [1])) == [0, 3, 1, 0x61, 0x62, 0x63, 1]
  {
    DigitVarints();
    hide Varint;
  }

  lemma SecondEntry()
    ensures BlockFormat.EntryBytes(2, BlockFormat.Entry([0x61, 0x62, 0x64], [2, 3])) == [2, 1, 2, 0x64, 2, 3]
  {
    DigitVarints();
    hide Varint;
  }
}
