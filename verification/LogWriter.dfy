/** db/log_writer.cc */
module LogWriter {
  import opened Bytes
  import opened Crc32c
  import opened LogFormat

  class Writer {
    /** The contents of the file. */
    var dest: seq<byte>
    var blockOffset: nat

    ghost predicate Valid()
      reads this
    {
      blockOffset <= BLOCK_SIZE && (blockOffset - |dest|) % BLOCK_SIZE == 0
    }

    /** A writer on a file that has contents already. */
    constructor (contents: seq<byte>)
      ensures Valid() && dest == contents
    {
      dest := contents;
      blockOffset := |contents| % BLOCK_SIZE;
    }

    method EmitPhysicalRecord(t: byte, payload: seq<byte>)
      requires Valid() && blockOffset + HEADER_SIZE + |payload| <= BLOCK_SIZE
      modifies this
      ensures Valid() && dest == old(dest) + Fragment(t, payload)
    {
      hide FragmentCrc, Mask, Byte, Extended;
      var crc := Mask(FragmentCrc(t, payload));
      var buf := Fixed32(crc) + LengthBytes(|payload|) + [t];
      dest := dest + buf;
      dest := dest + payload;
      blockOffset := blockOffset + HEADER_SIZE + |payload|;
    }

    method AddRecord(record: seq<byte>)
      requires Valid()
      modifies this
      ensures Valid() && dest == old(dest) + RecordBytes(record, |old(dest)|, true)
    {
      hide Fragment, Header, RecordBytes, Avail, Pad, Start;
      var left := record;
      var begin := true;
      ghost var all := dest + RecordBytes(record, |dest|, true);
      while begin || left != []
        invariant Valid()
        invariant all == if begin || left != [] then dest + RecordBytes(left, |dest|, begin) else dest
        decreases begin, |left|, Avail(|dest|) == 0
      {
        ghost var before := dest;
        PlaceInBlock(blockOffset, |dest|);
        var leftover := BLOCK_SIZE - blockOffset;
        if leftover < HEADER_SIZE {
          if leftover > 0 {
            dest := dest + Zeros(leftover);
          }
          blockOffset := 0;
        }
        assert dest == before + Zeros(Pad(|before|));
        var avail := BLOCK_SIZE - blockOffset - HEADER_SIZE;
        var fragmentLength := if |left| < avail then |left| else avail;
        assert fragmentLength == Fit(left, |before|);
        var end := |left| == fragmentLength;
        var t;
        if begin && end {
          t := FULL;
        } else if begin {
          t := FIRST;
        } else if end {
          t := LAST;
        } else {
          t := MIDDLE;
        }
        EmitPhysicalRecord(t, left[..fragmentLength]);
        NextFragment(before, left, begin);
        assert dest == AfterFragment(before, left, begin);
        left := left[fragmentLength..];
        begin := false;
      }
    }
  }
}
