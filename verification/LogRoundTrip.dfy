/** Writing a log and reading it back after the file was cut at any byte (db/log_writer.cc, db/log_reader.cc, and the
loop around the reader in db/db_impl.cc). */
module LogRoundTrip {
  import opened Common
  import opened Bytes
  import opened LogFormat
  import opened LogWriter
  import opened LogReader

  /** All records that a reader gets from `p` on, and how often it reports. */
  datatype Contents = Contents(records: seq<seq<byte>>, reports: nat)

  function ContentsFrom(file: seq<byte>, p: nat): Contents
    requires p <= |file|
    decreases |file| - p
  {
    RecordIsFurther(file, p, [], false);
    var r := NextRecord(file, p, [], false);
    if !r.ok then Contents([], r.reports) else Followed(r, ContentsFrom(file, r.next))
  }

  function Followed(r: Outcome, more: Contents): Contents {
    Contents([r.record] + more.records, r.reports + more.reports)
  }

  lemma {:induction false} RecordIsFurther(file: seq<byte>, p: nat, scratch: seq<byte>, inside: bool)
    requires p <= |file|
    ensures var r := NextRecord(file, p, scratch, inside); r.next <= |file| && (r.ok ==> p < r.next)
    decreases |file| - p
  {
    hide NextPhysical, IsOutOfPlace, NextRecord;
    RecordUnfolds(file, p, scratch, inside);
    var r := NextPhysical(file, p);
    if r.recordType == FIRST {
      RecordIsFurther(file, r.next, r.fragment, true);
    } else if r.recordType == MIDDLE && inside {
      RecordIsFurther(file, r.next, scratch + r.fragment, true);
    } else if r.recordType == MIDDLE || (r.recordType == LAST && !inside) || (r.recordType == BAD_RECORD && !inside) {
      RecordIsFurther(file, r.next, scratch, inside);
    } else if r.recordType != FULL && r.recordType != LAST && r.recordType != EOF {
      RecordIsFurther(file, r.next, [], false);
    }
  }

  lemma ContentsUnfold(file: seq<byte>, p: nat)
    requires p <= |file|
    ensures var r := NextRecord(file, p, [], false);
            && r.next <= |file| && (r.ok ==> p < r.next)
            && ContentsFrom(file, p) == if !r.ok then Contents([], r.reports)
                                        else Followed(r, ContentsFrom(file, r.next))
  {
    RecordIsFurther(file, p, [], false);
    hide NextRecord;
  }

  /** In a log, perhaps cut, the complete records are read, in order, and nothing is reported. */
  lemma {:induction false} LogIsRead(file: seq<byte>, p: nat, records: seq<seq<byte>>)
    requires p <= |file| && IsPrefix(file[p..], LogBytes(records, p))
    ensures ContentsFrom(file, p) == Contents(records[..CompleteRecords(records, p, |file|)], 0)
    decreases |file| - p
  {
    hide NextRecord, RecordBytes, LogBytes, IsPrefix, ContentsFrom, CompleteRecords;
    NextOfLog(file, p, records, [], false);
    ContentsUnfold(file, p);
    NextComplete(records, p, |file|);
    var r := NextRecord(file, p, [], false);
    if r.ok {
      LogIsRead(file, r.next, records[1..]);
      FirstAndRest(records, CompleteRecords(records[1..], r.next, |file|));
    }
  }

  lemma FirstAndRest(records: seq<seq<byte>>, n: nat)
    requires n + 1 <= |records|
    ensures records[..n + 1] == [records[0]] + records[1..][..n]
  {
  }

  /** If a log begins at a block, its complete records are the last that are read, whatever damage there is before it:
      only an intact fragment of a type that stands for the end of the file could stop the reader. */
  lemma {:induction false} DamagedLogIsRead(file: seq<byte>, b: nat, records: seq<seq<byte>>, p: nat)
    requires b % BLOCK_SIZE == 0 && p <= b <= |file| && IsPrefix(file[b..], LogBytes(records, b))
    requires forall q: nat :: q < b ==> !IsFalseEnd(file, q)
    ensures var read, n := ContentsFrom(file, p).records, CompleteRecords(records, b, |file|);
            n <= |read| && n <= |records| && read[|read| - n..] == records[..n]
    decreases |file| - p
  {
    hide NextRecord, RecordBytes, LogBytes, IsPrefix, ContentsFrom, CompleteRecords, IsFalseEnd;
    DamageIsContained(file, b, records, p, [], false);
    ContentsUnfold(file, p);
    NextComplete(records, b, |file|);
    var r := NextRecord(file, p, [], false);
    if r.ok {
      if r.next <= b {
        DamagedLogIsRead(file, b, records, r.next);
        OneMoreBefore(r.record, ContentsFrom(file, r.next).records, CompleteRecords(records, b, |file|));
      } else {
        LogIsRead(file, r.next, records[1..]);
        FirstAndRest(records, CompleteRecords(records[1..], r.next, |file|));
      }
    }
  }

  lemma OneMoreBefore(record: seq<byte>, records: seq<seq<byte>>, n: nat)
    requires n <= |records|
    ensures ([record] + records)[1 + |records| - n..] == records[|records| - n..]
  {
  }

  /** The loop of `RecoverLogFile`: reads as long as there is a record. */
  method ReadAll(reader: Reader) returns (read: seq<seq<byte>>)
    requires reader.Valid()
    modifies reader
    ensures reader.Valid() && old(reader.Pos()) <= |reader.file|
    ensures var all := ContentsFrom(reader.file, old(reader.Pos()));
            && read == all.records && old(reader.corruptions) <= reader.corruptions
            && |reader.corruptions| == |old(reader.corruptions)| + all.reports
  {
    hide *;
    read := [];
    reader.PosInFile();
    ghost var p, reports: nat := reader.Pos(), 0;
    AfterNothing(ContentsFrom(reader.file, p));
    while true
      invariant reader.Valid() && reader.Pos() <= |reader.file| && old(reader.corruptions) <= reader.corruptions
      invariant |reader.corruptions| == |old(reader.corruptions)| + reports
      invariant ContentsFrom(reader.file, p) == After(read, reports, ContentsFrom(reader.file, reader.Pos()))
      decreases |reader.file| - reader.Pos()
    {
      ghost var r := NextRecord(reader.file, reader.Pos(), [], false);
      ContentsUnfold(reader.file, reader.Pos());
      var ok, record := reader.ReadRecord();
      if !ok {
        AfterLast(read, reports, r.reports);
        break;
      }
      AfterOneMore(read, reports, r, ContentsFrom(reader.file, reader.Pos()));
      reports := reports + r.reports;
      read := read + [record];
    }
  }

  /** What has been read, and what follows. */
  function After(read: seq<seq<byte>>, reports: nat, more: Contents): Contents {
    Contents(read + more.records, reports + more.reports)
  }

  lemma AfterNothing(more: Contents)
    ensures After([], 0, more) == more
  {
    assert [] + more.records == more.records;
  }

  lemma AfterOneMore(read: seq<seq<byte>>, reports: nat, r: Outcome, more: Contents)
    ensures After(read, reports, Followed(r, more)) == After(read + [r.record], reports + r.reports, more)
  {
    assert read + ([r.record] + more.records) == read + [r.record] + more.records;
  }

  lemma AfterLast(read: seq<seq<byte>>, reports: nat, last: nat)
    ensures After(read, reports, Contents([], last)) == Contents(read, reports + last)
  {
    assert read + [] == read;
  }

  lemma NextComplete(records: seq<seq<byte>>, p: nat, size: nat)
    ensures CompleteRecords(records, p, size) ==
            if records == [] || p + |RecordBytes(records[0], p, true)| > size then 0
            else 1 + CompleteRecords(records[1..], p + |RecordBytes(records[0], p, true)|, size)
  {
  }

  lemma NoRecords(p: nat)
    ensures LogBytes([], p) == []
  {
  }

  method WriteAll(writer: Writer, records: seq<seq<byte>>)
    requires writer.Valid()
    modifies writer
    ensures writer.Valid() && writer.dest == old(writer.dest) + LogBytes(records, |old(writer.dest)|)
  {
    hide *;
    NoRecords(|writer.dest|);
    assert records[..0] == [];
    for i := 0 to |records|
      invariant writer.Valid() && writer.dest == old(writer.dest) + LogBytes(records[..i], |old(writer.dest)|)
    {
      writer.AddRecord(records[i]);
      LogBytesAppend(records[..i], [records[i]], |old(writer.dest)|);
      LogBytesOne(records[i], |old(writer.dest)| + |LogBytes(records[..i], |old(writer.dest)|)|);
      assert records[..i + 1] == records[..i] + [records[i]];
    }
    assert records[..|records|] == records;
  }

  /** For every list of records and every byte at which the file is cut, a reader gets back exactly the records that
      end at or before the cut, in order, and reports no corruption. */
  method CutAndReadBack(records: seq<seq<byte>>, cut: nat) returns (read: seq<seq<byte>>, corruptions: seq<string>)
    requires cut <= |LogBytes(records, 0)|
    ensures corruptions == []
    ensures exists k: nat :: EndBefore(records, 0, cut, k) && read == records[..k]
  {
    hide *;
    var writer := new Writer([]);
    WriteAll(writer, records);
    assert writer.dest == LogBytes(records, 0);
    var reader := new Reader(writer.dest[..cut]);
    CutIsPrefix(LogBytes(records, 0), cut);
    LogIsRead(reader.file, 0, records);
    read := ReadAll(reader);
    corruptions := reader.corruptions;
    CompleteRecordsIs(records, 0, cut);
  }

  lemma CutIsPrefix(all: seq<byte>, cut: nat)
    requires cut <= |all|
    ensures IsPrefix(all[..cut], all)
  {
  }

  lemma FirstRecordsAreShorter(records: seq<seq<byte>>, j: nat, p: nat)
    requires j <= |records|
    ensures |LogBytes(records[..j], p)| <= |LogBytes(records, p)|
  {
    LogBytesAppend(records[..j], records[j..], p);
    assert records[..j] + records[j..] == records;
  }

  /** Nothing is lost when the file is not cut. */
  lemma WholeFileHasAll(records: seq<seq<byte>>, k: nat)
    requires EndBefore(records, 0, |LogBytes(records, 0)|, k)
    ensures records[..k] == records
  {
    hide LogBytes;
    if k < |records| {
      FirstRecordsAreShorter(records, k + 1, 0);
    }
  }
}
