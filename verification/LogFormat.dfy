/** The log file format (db/log_format.h, db/log_writer.cc): records are cut into fragments that do not cross the
boundary of a block; each fragment has a header with a checksum, and the end of a block that is too short for a
header is filled with zeros.  Positions are absolute positions in the file. */
module LogFormat {
  import opened Common
  import opened Bytes
  import opened Crc32c

  const BLOCK_SIZE := 32768
  /** Checksum (4 bytes), length (2 bytes), type (1 byte). */
  const HEADER_SIZE := 7

  const FULL: byte := 1
  const FIRST: byte := 2
  const MIDDLE: byte := 3
  const LAST: byte := 4

  /** What is left of the block at `p`, if it is too short for a header. */
  function Pad(p: nat): nat {
    var leftover := BLOCK_SIZE - p % BLOCK_SIZE;
    if leftover < HEADER_SIZE then leftover else 0
  }

  /** Where the next fragment starts. */
  function Start(p: nat): (s: nat)
    ensures p <= s < p + HEADER_SIZE && s % BLOCK_SIZE + HEADER_SIZE <= BLOCK_SIZE
  {
    p + Pad(p)
  }

  /** How many bytes of a record the next fragment can hold. */
  function Avail(p: nat): (n: nat)
    ensures n <= BLOCK_SIZE - HEADER_SIZE
  {
    BLOCK_SIZE - Start(p) % BLOCK_SIZE - HEADER_SIZE
  }

  function Fit(record: seq<byte>, p: nat): (n: nat)
    ensures n <= |record| && n <= Avail(p) && (n == |record| || n == Avail(p))
  {
    if |record| < Avail(p) then |record| else Avail(p)
  }

  function TypeOf(begin: bool, end: bool): byte {
    if begin && end then FULL else if begin then FIRST else if end then LAST else MIDDLE
  }

  function Fixed32(w: word): seq<byte> {
    [Byte(w, 0), Byte(w, 1), Byte(w, 2), Byte(w, 3)]
  }

  function LengthBytes(n: nat): (s: seq<byte>)
    requires n <= 0xffff
    ensures |s| == 2
  {
    [ByteOf(n % 256), ByteOf(n / 256)]
  }

  function DecodeLength(low: byte, high: byte): nat {
    NatOf(low) + 256 * NatOf(high)
  }

  lemma LengthRoundTrip(n: nat)
    requires n <= 0xffff
    ensures DecodeLength(LengthBytes(n)[0], LengthBytes(n)[1]) == n
  {
    hide ByteOf, NatOf;
    ByteRoundTrip(n % 256);
    ByteRoundTrip(n / 256);
  }

  lemma Fixed32RoundTrip(w: word)
    ensures ReadWord(Fixed32(w), 0) == w
  {
    FixedBytes(w);
  }

  lemma FixedBytes(w: word)
    ensures LittleEndian(Byte(w, 0), Byte(w, 1), Byte(w, 2), Byte(w, 3)) == w
  {
  }

  /** The checksum of a fragment: of its type, extended by its payload. */
  function FragmentCrc(t: byte, payload: seq<byte>): word {
    Extended(Extended(0, [t]), payload)
  }

  function Header(t: byte, payload: seq<byte>): (h: seq<byte>)
    requires |payload| <= 0xffff
    ensures |h| == HEADER_SIZE && h[6] == t
  {
    Fixed32(Mask(FragmentCrc(t, payload))) + LengthBytes(|payload|) + [t]
  }

  /** The reader gets back what the header says, and the checksum it computes in one go agrees. */
  lemma HeaderRoundTrip(t: byte, payload: seq<byte>)
    requires |payload| <= 0xffff
    ensures var h := Header(t, payload);
            && DecodeLength(h[4], h[5]) == |payload|
            && Unmask(ReadWord(h, 0)) == Extended(0, [t] + payload)
  {
    hide Byte, LengthBytes, DecodeLength, Extended, Mask, Unmask, LittleEndian;
    var crc := FragmentCrc(t, payload);
    var h := Header(t, payload);
    var f, n := Fixed32(Mask(crc)), LengthBytes(|payload|);
    assert h[0] == f[0] && h[1] == f[1] && h[2] == f[2] && h[3] == f[3];
    assert h[4] == n[0] && h[5] == n[1];
    LengthRoundTrip(|payload|);
    Fixed32RoundTrip(Mask(crc));
    assert ReadWord(h, 0) == ReadWord(f, 0);
    MaskRoundTrip(crc);
    ExtendComposes(0, [t], payload);
  }

  function Fragment(t: byte, payload: seq<byte>): (f: seq<byte>)
    requires |payload| <= 0xffff
    ensures |f| == HEADER_SIZE + |payload|
  {
    Header(t, payload) + payload
  }

  function Zeros(n: nat): seq<byte> {
    seq(n, _ => 0)
  }

  /** What a record looks like in a file that ends at `p`; `begin` says that its first byte is still to come. */
  function RecordBytes(record: seq<byte>, p: nat, begin: bool): seq<byte>
    decreases |record|, Avail(p) == 0
  {
    var n := Fit(record, p);
    var end := |record| == n;
    var fragment := Zeros(Pad(p)) + Fragment(TypeOf(begin, end), record[..n]);
    if end then fragment else
      NextBlock(p);
      fragment + RecordBytes(record[n..], p + |fragment|, false)
  }

  /** A file after one fragment of what is left of a record. */
  function AfterFragment(file: seq<byte>, left: seq<byte>, begin: bool): seq<byte> {
    var n := Fit(left, |file|);
    file + Zeros(Pad(|file|)) + Fragment(TypeOf(begin, |left| == n), left[..n])
  }

  lemma NextFragment(file: seq<byte>, left: seq<byte>, begin: bool)
    ensures var n := Fit(left, |file|); var file' := AfterFragment(file, left, begin);
            && file + RecordBytes(left, |file|, begin)
               == (if |left| == n then file' else file' + RecordBytes(left[n..], |file'|, false))
            && (n < |left| ==> n > 0 || Avail(|file'|) > 0)
  {
    hide Fragment, Avail, Pad, TypeOf;
    NextBlock(|file|);
    var n := Fit(left, |file|);
    var fragment := Zeros(Pad(|file|)) + Fragment(TypeOf(begin, |left| == n), left[..n]);
    assert AfterFragment(file, left, begin) == file + fragment;
    if n < |left| {
      var rest := RecordBytes(left[n..], |file| + |fragment|, false);
      assert RecordBytes(left, |file|, begin) == fragment + rest;
      assert file + (fragment + rest) == (file + fragment) + rest;
    }
  }

  /** A writer keeps its place in the block only. */
  lemma PlaceInBlock(offset: nat, p: nat)
    requires offset <= BLOCK_SIZE && (offset - p) % BLOCK_SIZE == 0
    ensures Pad(p) == if BLOCK_SIZE - offset < HEADER_SIZE then BLOCK_SIZE - offset else 0
    ensures var o := if BLOCK_SIZE - offset < HEADER_SIZE then 0 else offset;
            Avail(p) == BLOCK_SIZE - o - HEADER_SIZE && (o - (p + Pad(p))) % BLOCK_SIZE == 0
  {
  }

  lemma NextBlock(p: nat)
    ensures Avail(Start(p) + HEADER_SIZE + Avail(p)) > 0
  {
  }

  /** The file of a sequence of records. */
  function LogBytes(records: seq<seq<byte>>, p: nat): seq<byte> {
    if records == [] then [] else
      var first := RecordBytes(records[0], p, true);
      first + LogBytes(records[1..], p + |first|)
  }

  /** Appending to a log, also by a writer opened on an existing file, makes the log of all records. */
  lemma {:induction false} LogBytesAppend(records: seq<seq<byte>>, more: seq<seq<byte>>, p: nat)
    ensures LogBytes(records + more, p) == LogBytes(records, p) + LogBytes(more, p + |LogBytes(records, p)|)
  {
    hide RecordBytes;
    if records == [] {
      assert records + more == more;
    } else {
      var first := RecordBytes(records[0], p, true);
      assert (records + more)[1..] == records[1..] + more;
      LogBytesAppend(records[1..], more, p + |first|);
    }
  }

  lemma LogBytesOne(record: seq<byte>, p: nat)
    ensures LogBytes([record], p) == RecordBytes(record, p, true)
  {
  }

  lemma CutAfter(a: seq<byte>, x: seq<byte>, y: seq<byte>)
    requires IsPrefix(a, x + y) && |a| >= |x|
    ensures a[..|x|] == x && IsPrefix(a[|x|..], y)
  {
    assert a[|x|..] == y[..|a| - |x|];
  }

  /** `rest`, which starts at `p`, holds a fragment next, or as much of it as was written. */
  ghost predicate Expects(rest: seq<byte>, p: nat, t: byte, payload: seq<byte>, more: seq<byte>) {
    && |payload| <= Avail(p) && 1 <= t <= 4
    && IsPrefix(rest, Zeros(Pad(p)) + Fragment(t, payload) + more)
  }

  lemma ExpectedHeader(rest: seq<byte>, p: nat, t: byte, payload: seq<byte>, more: seq<byte>)
    requires Expects(rest, p, t, payload, more) && |rest| >= Pad(p) + HEADER_SIZE
    ensures var h := rest[Pad(p)..Pad(p) + HEADER_SIZE];
            && h[6] == t && DecodeLength(h[4], h[5]) == |payload|
            && Unmask(ReadWord(h, 0)) == Extended(0, [t] + payload)
  {
    hide Pad, Header, DecodeLength, Unmask, ReadWord, Extended;
    var all := Zeros(Pad(p)) + Fragment(t, payload) + more;
    assert all[Pad(p)..Pad(p) + HEADER_SIZE] == Header(t, payload);
    assert rest[Pad(p)..Pad(p) + HEADER_SIZE] == all[Pad(p)..Pad(p) + HEADER_SIZE];
    HeaderRoundTrip(t, payload);
  }

  lemma ExpectedPayload(rest: seq<byte>, p: nat, t: byte, payload: seq<byte>, more: seq<byte>)
    requires Expects(rest, p, t, payload, more) && |rest| >= Pad(p) + HEADER_SIZE + |payload|
    ensures var start := Pad(p) + HEADER_SIZE; var end := start + |payload|;
            rest[start..end] == payload && rest[start - 1] == t && IsPrefix(rest[end..], more)
  {
    hide Pad, Header;
    CutAfter(rest, Zeros(Pad(p)) + Fragment(t, payload), more);
    var start := Pad(p) + HEADER_SIZE;
    var all := Zeros(Pad(p)) + Fragment(t, payload);
    assert rest[start..start + |payload|] == all[start..];
    assert all[start - 1] == Header(t, payload)[6];
  }

  /** The bytes of a record that is partly read, seen as its next fragment and the rest. */
  lemma ExpectedRecord(rest: seq<byte>, p: nat, left: seq<byte>, begin: bool, tail: seq<byte>)
    requires IsPrefix(rest, RecordBytes(left, p, begin) + tail)
    ensures var n := Fit(left, p); var end := |left| == n; var p' := Start(p) + HEADER_SIZE + n;
            && |RecordBytes(left, p, begin)| == p' - p + (if end then 0 else |RecordBytes(left[n..], p', false)|)
            && Expects(rest, p, TypeOf(begin, end), left[..n],
                       if end then tail else RecordBytes(left[n..], p', false) + tail)
  {
    hide Fragment, Avail, Pad;
    var n := Fit(left, p);
    var end := |left| == n;
    var fragment := Zeros(Pad(p)) + Fragment(TypeOf(begin, end), left[..n]);
    if !end {
      var more := RecordBytes(left[n..], p + |fragment|, false);
      assert RecordBytes(left, p, begin) == fragment + more;
      assert (fragment + more) + tail == fragment + (more + tail);
    }
  }

  /** How many records of a log that starts at `p` end at or before the end of a file of `size` bytes. */
  function CompleteRecords(records: seq<seq<byte>>, p: nat, size: nat): (k: nat)
    ensures k <= |records|
  {
    if records == [] || p + |RecordBytes(records[0], p, true)| > size then 0
    else 1 + CompleteRecords(records[1..], p + |RecordBytes(records[0], p, true)|, size)
  }

  /** `k` records fit in the file, and the next does not. */
  ghost predicate EndBefore(records: seq<seq<byte>>, p: nat, size: nat, k: nat) {
    && k <= |records| && p + |LogBytes(records[..k], p)| <= size
    && (k < |records| ==> p + |LogBytes(records[..k + 1], p)| > size)
  }

  lemma {:induction false} CompleteRecordsIs(records: seq<seq<byte>>, p: nat, size: nat)
    requires p <= size
    ensures EndBefore(records, p, size, CompleteRecords(records, p, size))
  {
    hide RecordBytes;
    if records != [] {
      var p' := p + |RecordBytes(records[0], p, true)|;
      if p' > size {
        LogBytesOne(records[0], p);
        assert records[..1] == [records[0]];
      } else {
        var k := CompleteRecords(records[1..], p', size);
        CompleteRecordsIs(records[1..], p', size);
        assert records[..k + 1][1..] == records[1..][..k];
        if k + 1 < |records| {
          assert records[..k + 2][1..] == records[1..][..k + 1];
        }
      }
    }
  }
}
