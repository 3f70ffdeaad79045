/** db/log_reader.cc, reading from offset 0 with checksums verified.  A read from the file is full unless the file
ends. */
module LogReader {
  import opened Common
  import opened Bytes
  import opened Crc32c
  import opened LogFormat

  const EOF: byte := 5
  const BAD_RECORD: byte := 6

  lemma Constants()
    ensures HEADER_SIZE == 7 && FULL == 1 && FIRST == 2 && MIDDLE == 3 && LAST == 4 && EOF == 5 && BAD_RECORD == 6
  {
  }

  /** What the next fragment of a file is, without any buffer: its type and payload, where the one after it starts, and
      what is reported.  A fragment that does not fit its block, or whose checksum is wrong, costs the rest of the
      block; one that does not fit the file is its end. */
  datatype Physical = Physical(recordType: byte, fragment: seq<byte>, next: nat, reports: seq<string>)

  function BlockEnd(size: nat, p: nat): nat {
    var end := p - p % BLOCK_SIZE + BLOCK_SIZE;
    if size < end then size else end
  }

  function NextPhysical(file: seq<byte>, p: nat): Physical {
    var start := Start(p);
    if |file| < start + 7 then Physical(EOF, [], |file|, []) else
      var end, stop := BlockEnd(|file|, start), start + 7 + DecodeLength(file[start + 4], file[start + 5]);
      if stop > end then
        if end % BLOCK_SIZE == 0 then Physical(BAD_RECORD, [], end, ["bad record length"])
        else Physical(EOF, [], |file|, [])
      else if file[start + 6] == 0 && stop == start + 7 then Physical(BAD_RECORD, [], end, [])
      else if Extended(0, file[start + 6..stop]) != Unmask(ReadWord(file[start..start + 7], 0)) then
        Physical(BAD_RECORD, [], end, ["checksum mismatch"])
      else Physical(file[start + 6], file[start + 7..stop], stop, [])
  }

  lemma NextIsFurther(file: seq<byte>, p: nat)
    requires p <= |file|
    ensures var r := NextPhysical(file, p); p <= r.next <= |file| && (r.recordType != EOF ==> p < r.next)
  {
    hide Extended, Unmask, DecodeLength, ReadWord;
  }

  /** What `ReadRecord` returns, where it stops, and how often it reports. */
  datatype Outcome = Outcome(ok: bool, record: seq<byte>, next: nat, reports: nat)

  function Behind(reports: nat, r: Outcome): Outcome {
    r.(reports := reports + r.reports)
  }

  /** The record that the fragments from `p` on make, when `scratch` is what they continue if `inside` says so: an end
      without a beginning is dropped, and so is a beginning without an end. */
  function NextRecord(file: seq<byte>, p: nat, scratch: seq<byte>, inside: bool): Outcome
    requires p <= |file|
    decreases |file| - p
  {
    NextIsFurther(file, p);
    var r := NextPhysical(file, p);
    var reports := |r.reports| + if IsOutOfPlace(r.recordType, inside, scratch) then 1 else 0;
    if r.recordType == FULL then Outcome(true, r.fragment, r.next, reports)
    else if r.recordType == LAST && inside then Outcome(true, scratch + r.fragment, r.next, reports)
    else if r.recordType == EOF then Outcome(false, [], r.next, reports)
    else
      Behind(reports,
             if r.recordType == FIRST then NextRecord(file, r.next, r.fragment, true)
             else if r.recordType == MIDDLE && inside then NextRecord(file, r.next, scratch + r.fragment, true)
             else if r.recordType == MIDDLE || r.recordType == LAST || (r.recordType == BAD_RECORD && !inside) then
               NextRecord(file, r.next, scratch, inside)
             else NextRecord(file, r.next, [], false))
  }

  class Reader {
    const file: seq<byte>
    /** How much of the file has been read into the buffer. */
    var consumed: nat
    var buffer: seq<byte>
    var eof: bool
    /** What was reported to the reporter as dropped. */
    var corruptions: seq<string>

    ghost predicate Valid()
      reads this`consumed, this`buffer, this`eof
    {
      && |buffer| <= consumed <= |file|
      && buffer == file[Pos()..consumed]
      && Pos() % BLOCK_SIZE + |buffer| <= BLOCK_SIZE
      && (if eof then consumed == |file| && (buffer == [] || consumed % BLOCK_SIZE != 0)
          else consumed % BLOCK_SIZE == 0)
    }

    /** The position of the next byte to parse. */
    ghost function Pos(): nat
      reads this`consumed, this`buffer
    {
      if |buffer| <= consumed then consumed - |buffer| else 0
    }

    ghost function Rest(): seq<byte>
      reads this`consumed, this`buffer
    {
      if Pos() <= |file| then file[Pos()..] else []
    }

    constructor (file: seq<byte>)
      ensures Valid() && this.file == file && Rest() == file && corruptions == [] && Pos() == 0
    {
      this.file := file;
      consumed := 0;
      buffer := [];
      eof := false;
      corruptions := [];
    }

    method Corruption(reason: string)
      modifies this`corruptions
      ensures corruptions == old(corruptions) + [reason]
    {
      corruptions := corruptions + [reason];
    }

    /** `buffer_.clear()` */
    method Clear()
      requires Valid()
      modifies this`buffer
      ensures Valid() && buffer == [] && Pos() == old(Pos()) + |old(buffer)|
      ensures eof ==> Rest() == []
    {
      buffer := [];
    }

    method RemovePrefix(n: nat)
      requires Valid() && n <= |buffer|
      modifies this`buffer
      ensures Valid() && Pos() == old(Pos()) + n
      ensures n <= |old(Rest())| && Rest() == old(Rest())[n..]
    {
      buffer := buffer[n..];
    }

    /** The next block of the file replaces the buffer. */
    method ReadBlock()
      requires Valid() && !eof && |buffer| < HEADER_SIZE
      modifies this`consumed, this`buffer, this`eof
      ensures Valid() && Pos() == old(consumed) == Start(old(Pos()))
      ensures if eof then |buffer| < BLOCK_SIZE else |buffer| == BLOCK_SIZE
    {
      hide Start;
      var n := if |file| - consumed < BLOCK_SIZE then |file| - consumed else BLOCK_SIZE;
      TrailerIsLeft(Pos(), consumed);
      PlaceOf(consumed, n);
      buffer := file[consumed..consumed + n];
      consumed := consumed + n;
      if |buffer| < BLOCK_SIZE {
        eof := true;
      }
    }

    /** The loop at the head of `ReadPhysicalRecord`: skips the trailer of a block; false at the end of the file. */
    method FillBuffer() returns (more: bool)
      requires Valid()
      modifies this`consumed, this`buffer, this`eof
      ensures Valid()
      ensures more <==> |file| >= Start(old(Pos())) + HEADER_SIZE
      ensures if more then |buffer| >= HEADER_SIZE && Pos() == Start(old(Pos())) else Rest() == []
    {
      ghost var p := Pos();
      while |buffer| < HEADER_SIZE
        invariant Valid() && (Pos() == p || Pos() == Start(p))
        decreases !eof, BLOCK_SIZE - |buffer|
      {
        if !eof {
          ReadBlock();
        } else {
          buffer := [];
          return false;
        }
      }
      return true;
    }

    /** The buffer reaches to the end of the block or of the file. */
    lemma BufferIsBlock(p: nat)
      requires Valid() && |buffer| >= HEADER_SIZE && Pos() == Start(p)
      ensures |file| >= Start(p) + 7 && consumed == BlockEnd(|file|, Start(p)) == Start(p) + |buffer|
      ensures eof <==> consumed % BLOCK_SIZE != 0
      ensures buffer == file[Start(p)..consumed]
    {
    }

    lemma PhysicalIs(header: seq<byte>, p: nat, end: nat)
      requires Start(p) + |header| == end == BlockEnd(|file|, Start(p)) <= |file| && |header| >= 7
      requires header == file[Start(p)..end]
      ensures var length, r := DecodeLength(header[4], header[5]), NextPhysical(file, p);
              if 7 + length > |header| then
                r == if end % BLOCK_SIZE == 0 then Physical(BAD_RECORD, [], end, ["bad record length"])
                     else Physical(EOF, [], |file|, [])
              else if header[6] == 0 && length == 0 then r == Physical(BAD_RECORD, [], end, [])
              else if Extended(0, header[6..7 + length]) != Unmask(ReadWord(header, 0)) then
                r == Physical(BAD_RECORD, [], end, ["checksum mismatch"])
              else r == Physical(header[6], header[7..7 + length], Start(p) + 7 + length, [])
    {
      hide Start, BlockEnd, DecodeLength, Extended, Unmask;
      var s := Start(p);
      SameWord(header, file[s..s + 7]);
      var length := DecodeLength(header[4], header[5]);
      if 7 + length <= |header| {
        assert header[6..7 + length] == file[s + 6..s + 7 + length];
        assert header[7..7 + length] == file[s + 7..s + 7 + length];
      }
    }

    /** `ReadPhysicalRecord`: returns the type of the next fragment and its payload. */
    method ReadPhysicalRecord() returns (recordType: byte, fragment: seq<byte>)
      requires Valid()
      modifies this
      ensures Valid()
      ensures var r := NextPhysical(file, old(Pos()));
              && recordType == r.recordType && fragment == r.fragment && Pos() == r.next
              && corruptions == old(corruptions) + r.reports
      ensures recordType != EOF ==> Pos() > old(Pos())
    {
      hide *;
      Constants();
      PosInFile();
      ghost var p := Pos();
      StartsAtOrAfter(p);
      var filled := FillBuffer();
      if !filled {
        NoHeader(file, p);
        AtEnd();
        return EOF, [];
      }
      BufferIsBlock(p);
      var header := buffer;
      PhysicalIs(header, p, consumed);
      var length := DecodeLength(header[4], header[5]);
      if HEADER_SIZE + length > |buffer| {
        Clear();
        if !eof {
          Corruption("bad record length");
          return BAD_RECORD, [];
        }
        AtEnd();
        return EOF, [];
      }
      if header[6] == 0 && length == 0 {
        Clear();
        return BAD_RECORD, [];
      }
      var expected := Unmask(ReadWord(header, 0));
      var actual := Extended(0, header[6..HEADER_SIZE + length]);
      if actual != expected {
        Clear();
        Corruption("checksum mismatch");
        return BAD_RECORD, [];
      }
      RemovePrefix(HEADER_SIZE + length);
      return header[6], header[HEADER_SIZE..HEADER_SIZE + length];
    }

    lemma StartsAtOrAfter(p: nat)
      ensures p <= Start(p)
    {
    }

    lemma AtEnd()
      requires Valid() && Rest() == []
      ensures Pos() == |file|
    {
    }

    lemma PosInFile()
      requires Valid()
      ensures Pos() <= |file| && |Rest()| == |file| - Pos() && Rest() == file[Pos()..]
    {
    }

    /** `ReadRecord`: the next record, if there is one. */
    method ReadRecord() returns (ok: bool, record: seq<byte>)
      requires Valid()
      modifies this
      ensures Valid() && (ok ==> Pos() > old(Pos()))
      ensures old(Pos()) <= |file| && var r := NextRecord(file, old(Pos()), [], false);
              && ok == r.ok && record == r.record && Pos() == r.next && Pos() <= |file|
              && old(corruptions) <= corruptions && |corruptions| == |old(corruptions)| + r.reports
    {
      hide *;
      Constants();
      PosInFile();
      var scratch := [];
      var inFragmentedRecord := false;
      ghost var reports: nat := 0;
      BehindNothing(NextRecord(file, Pos(), [], false));
      while true
        invariant |corruptions| == |old(corruptions)| + reports
        invariant Valid() && old(Pos()) <= Pos() <= |file| && old(corruptions) <= corruptions
        invariant NextRecord(file, old(Pos()), [], false) ==
                  Behind(reports, NextRecord(file, Pos(), scratch, inFragmentedRecord))
        decreases |file| - Pos()
      {
        RecordUnfolds(file, Pos(), scratch, inFragmentedRecord);
        BehindIs(reports, NextRecord(file, Pos(), scratch, inFragmentedRecord));
        var recordType, fragment := ReadPhysicalRecord();
        PosInFile();
        var stop;
        stop, ok, scratch, inFragmentedRecord := Assemble(recordType, fragment, scratch, inFragmentedRecord);
        if stop {
          return ok, scratch;
        }
        ghost var more := |corruptions| - |old(corruptions)| - reports;
        BehindAgain(reports, more, NextRecord(file, Pos(), scratch, inFragmentedRecord));
        reports := reports + more;
      }
    }

    /** The switch of `ReadRecord`: what one fragment does to the record being put together.  `stop` says that
        `ReadRecord` returns. */
    method Assemble(recordType: byte, fragment: seq<byte>, scratch: seq<byte>, inFragmentedRecord: bool)
      returns (stop: bool, ok: bool, scratch': seq<byte>, inFragmentedRecord': bool)
      modifies this`corruptions
      ensures recordType == EOF || (recordType == FULL && !inFragmentedRecord)
                || (recordType == FIRST && !inFragmentedRecord)
              || (recordType == MIDDLE && inFragmentedRecord) || (recordType == LAST && inFragmentedRecord) ==>
                corruptions == old(corruptions)
      ensures |corruptions| ==
              |old(corruptions)| + (if IsOutOfPlace(recordType, inFragmentedRecord, scratch) then 1 else 0)
      ensures old(corruptions) <= corruptions
      ensures ok ==> stop
      ensures recordType == EOF ==> stop && !ok && scratch' == []
      ensures stop <==> recordType == EOF || recordType == FULL || (recordType == LAST && inFragmentedRecord)
      ensures recordType == FULL ==> ok && scratch' == fragment
      ensures recordType == LAST && inFragmentedRecord ==> ok && scratch' == scratch + fragment
      ensures recordType == FIRST ==> inFragmentedRecord' && scratch' == fragment
      ensures recordType == MIDDLE && inFragmentedRecord ==> inFragmentedRecord' && scratch' == scratch + fragment
      ensures (recordType == MIDDLE || recordType == LAST || recordType == BAD_RECORD) && !inFragmentedRecord ==>
                !inFragmentedRecord' && scratch' == scratch
      ensures recordType == 0 || recordType > BAD_RECORD || (recordType == BAD_RECORD && inFragmentedRecord) ==>
                !inFragmentedRecord' && scratch' == []
    {
      stop, ok, scratch', inFragmentedRecord' := false, false, scratch, inFragmentedRecord;
      match recordType {
        case 1 =>
          if inFragmentedRecord && scratch != [] {
            Corruption("partial record without end(1)");
          }
          return true, true, fragment, false;
        case 2 =>
          if inFragmentedRecord && scratch != [] {
            Corruption("partial record without end(2)");
          }
          scratch' := fragment;
          inFragmentedRecord' := true;
        case 3 =>
          if !inFragmentedRecord {
            Corruption("missing start of fragmented record(1)");
          } else {
            scratch' := scratch + fragment;
          }
        case 4 =>
          if !inFragmentedRecord {
            Corruption("missing start of fragmented record(2)");
          } else {
            return true, true, scratch + fragment, false;
          }
        case 5 =>
          return true, false, [], false;
        case 6 =>
          if inFragmentedRecord {
            Corruption("error in middle of record");
            inFragmentedRecord' := false;
            scratch' := [];
          }
        case _ =>
          Corruption("unknown record type");
          inFragmentedRecord' := false;
          scratch' := [];
      }
    }
  }

  lemma BehindNothing(r: Outcome)
    ensures Behind(0, r) == r
  {
  }

  lemma BehindAgain(m: nat, n: nat, r: Outcome)
    ensures Behind(m, Behind(n, r)) == Behind(m + n, r)
  {
  }

  lemma BehindIs(m: nat, r: Outcome)
    ensures Behind(m, r) == r.(reports := m + r.reports)
  {
  }

  lemma RecordUnfolds(file: seq<byte>, p: nat, scratch: seq<byte>, inside: bool)
    requires p <= |file|
    ensures var r := NextPhysical(file, p);
            var reports := |r.reports| + if IsOutOfPlace(r.recordType, inside, scratch) then 1 else 0;
            && p <= r.next <= |file| && (r.recordType != EOF ==> p < r.next)
            && NextRecord(file, p, scratch, inside) ==
               (if r.recordType == FULL then Outcome(true, r.fragment, r.next, reports)
                else if r.recordType == LAST && inside then Outcome(true, scratch + r.fragment, r.next, reports)
                else if r.recordType == EOF then Outcome(false, [], r.next, reports)
                else
                  Behind(reports,
                         if r.recordType == FIRST then NextRecord(file, r.next, r.fragment, true)
                         else if r.recordType == MIDDLE && inside then
                           NextRecord(file, r.next, scratch + r.fragment, true)
                         else if r.recordType == MIDDLE || r.recordType == LAST
                                 || (r.recordType == BAD_RECORD && !inside) then
                           NextRecord(file, r.next, scratch, inside)
                         else NextRecord(file, r.next, [], false)))
  {
    NextIsFurther(file, p);
    hide NextPhysical, IsOutOfPlace;
  }

  // ----- nothing is made up -----

  /** A record stands in the file at `p`, whole fragments with right checksums one after the other, the first of them a
      first one if `begin` says so, up to `end`. */
  ghost predicate IsRecordAt(file: seq<byte>, p: nat, begin: bool, record: seq<byte>, end: nat)
    decreases if p <= |file| then |file| - p else 0
  {
    var r := NextPhysical(file, p);
    if r.recordType == (if begin then FULL else LAST) then record == r.fragment && end == r.next
    else
      && r.recordType == (if begin then FIRST else MIDDLE) && r.fragment <= record && p < r.next <= |file|
      && IsRecordAt(file, r.next, false, record[|r.fragment|..], end)
  }

  /** The first part of a record, up to `q`. */
  ghost predicate IsPartAt(file: seq<byte>, p: nat, part: seq<byte>, q: nat) {
    forall rest, end :: IsRecordAt(file, q, false, rest, end) ==> IsRecordAt(file, p, true, part + rest, end)
  }

  /** What a fragment at `q` adds to the part of a record that starts at `p`. */
  lemma Assembled(file: seq<byte>, p: nat, q: nat, part: seq<byte>, inside: bool)
    requires inside ==> IsPartAt(file, p, part, q)
    ensures var r := NextPhysical(file, q);
            && (r.recordType == FULL ==> IsRecordAt(file, q, true, r.fragment, r.next))
            && (r.recordType == FIRST && q < r.next <= |file| ==> IsPartAt(file, q, r.fragment, r.next))
            && (inside && r.recordType == MIDDLE && q < r.next <= |file| ==>
                  IsPartAt(file, p, part + r.fragment, r.next))
            && (inside && r.recordType == LAST ==> IsRecordAt(file, p, true, part + r.fragment, r.next))
  {
    hide NextPhysical;
    var r := NextPhysical(file, q);
    if r.recordType == FIRST && q < r.next <= |file| {
      forall rest, end | IsRecordAt(file, r.next, false, rest, end)
        ensures IsRecordAt(file, q, true, r.fragment + rest, end)
      {
        assert (r.fragment + rest)[|r.fragment|..] == rest;
      }
    }
    if inside && r.recordType == MIDDLE && q < r.next <= |file| {
      forall rest, end | IsRecordAt(file, r.next, false, rest, end)
        ensures IsRecordAt(file, p, true, part + r.fragment + rest, end)
      {
        assert (r.fragment + rest)[|r.fragment|..] == rest;
        assert IsRecordAt(file, q, false, r.fragment + rest, end);
        assert part + r.fragment + rest == part + (r.fragment + rest);
      }
    }
  }

  /** On any file, a record that is returned stands in it. */
  lemma {:induction false} NothingIsMadeUp(file: seq<byte>, start: nat, p: nat, scratch: seq<byte>, inside: bool)
    returns (at: nat)
    requires p <= |file| && (inside ==> start <= p && IsPartAt(file, start, scratch, p))
    ensures var r := NextRecord(file, p, scratch, inside);
            && (r.ok ==> IsRecordAt(file, at, true, r.record, r.next))
            && (r.ok ==> at >= if inside then start else p)
    decreases |file| - p
  {
    hide NextPhysical, IsOutOfPlace, IsRecordAt, IsPartAt, NextRecord;
    RecordUnfolds(file, p, scratch, inside);
    Assembled(file, start, p, scratch, inside);
    var r := NextPhysical(file, p);
    at := if r.recordType == FULL then p else start;
    if r.recordType == FIRST {
      at := NothingIsMadeUp(file, p, r.next, r.fragment, true);
    } else if r.recordType == MIDDLE && inside {
      at := NothingIsMadeUp(file, start, r.next, scratch + r.fragment, true);
    } else if r.recordType == MIDDLE || (r.recordType == LAST && !inside) || (r.recordType == BAD_RECORD && !inside) {
      at := NothingIsMadeUp(file, start, r.next, scratch, inside);
    } else if r.recordType != FULL && r.recordType != LAST && r.recordType != EOF {
      at := NothingIsMadeUp(file, start, r.next, [], false);
    }
  }

  // ----- a log -----

  /** The rest of a record that began earlier, or one that begins here whatever came before. */
  lemma {:induction false} RecordIsRead(file: seq<byte>, p: nat, part: seq<byte>, left: seq<byte>, begin: bool,
                                        tail: seq<byte>, record: seq<byte>, end: nat, scratch: seq<byte>, inside: bool)
    requires p <= |file| && InRecord(file[p..], p, part, left, begin, tail, record, end)
    requires !begin ==> inside && scratch == part
    ensures var r := NextRecord(file, p, scratch, inside);
            && (if |file| >= end then r.ok && r.record == record && r.next == end && IsPrefix(file[end..], tail)
                else !r.ok && r.next == |file|)
            && (inside == !begin ==> r.reports == 0)
    decreases |file| - p
  {
    hide NextPhysical, NextRecord, InRecord, Expects, RecordBytes, Start, Avail, Fit, IsPrefix, TypeOf;
    var n, last := Fit(left, p), |left| == Fit(left, p);
    var next := Start(p) + HEADER_SIZE + n;
    var more := if last then tail else RecordBytes(left[n..], next, false) + tail;
    ExpectedInRecord(file[p..], p, part, left, begin, tail, record, end);
    ExpectedPhysical(file, p, TypeOf(begin, last), left[..n], more);
    RecordUnfolds(file, p, scratch, inside);
    TypeTells(begin, last);
    if |file| >= next {
      AfterExpected(file[next..], p, part, left, begin, tail, record, end);
      if !last {
        RecordIsRead(file, next, part + left[..n], left[n..], false, tail, record, end, part + left[..n], true);
      }
    }
  }

  /** In a log, the next record is returned exactly if the file holds all of it; nothing is reported. */
  lemma NextOfLog(file: seq<byte>, p: nat, records: seq<seq<byte>>, scratch: seq<byte>, inside: bool)
    requires p <= |file| && IsPrefix(file[p..], LogBytes(records, p))
    ensures var r := NextRecord(file, p, scratch, inside);
            && (if records != [] && |file| >= p + |RecordBytes(records[0], p, true)| then
                  && r.ok && r.record == records[0] && r.next == p + |RecordBytes(records[0], p, true)|
                  && IsPrefix(file[r.next..], LogBytes(records[1..], r.next))
                else !r.ok && r.next == |file|)
            && (!inside ==> r.reports == 0)
  {
    hide NextRecord, RecordBytes, InRecord, LogBytes, IsPrefix;
    var first := if records == [] then [] else records[0];
    var end := p + |RecordBytes(first, p, true)|;
    var tail := if records == [] then [] else LogBytes(records[1..], end);
    FirstOfLog(file[p..], records, p);
    RecordIsRead(file, p, [], first, true, tail, first, end, scratch, inside);
    if records == [] {
      NoRecordBytes(p);
    }
  }

  lemma NoRecordBytes(p: nat)
    ensures |RecordBytes([], p, true)| > 0
  {
    hide Fragment, Pad;
  }

  // ----- damage -----

  /** An intact fragment of the type that stands for the end of the file. */
  ghost predicate IsFalseEnd(file: seq<byte>, p: nat) {
    |file| >= Start(p) + 7 && file[Start(p) + 6] == EOF && NextPhysical(file, p).recordType == EOF
  }

  /** Such a fragment, which no writer makes, stops the reader without a report. */
  lemma FalseEndStops(file: seq<byte>, p: nat, scratch: seq<byte>, inside: bool)
    requires p <= |file| && IsFalseEnd(file, p)
    ensures NextRecord(file, p, scratch, inside) == Outcome(false, [], NextPhysical(file, p).next, 0)
  {
    hide Extended, Unmask, DecodeLength, ReadWord;
  }

  /** Before the block at `b` no fragment reaches beyond it, and only a false end ends the file. */
  lemma WithinBlocks(file: seq<byte>, p: nat, b: nat)
    requires b % BLOCK_SIZE == 0 && b <= |file| && Start(p) < b
    ensures var r := NextPhysical(file, p); r.next <= b || IsFalseEnd(file, p)
    ensures NextPhysical(file, p).recordType == EOF ==> IsFalseEnd(file, p)
  {
    hide Extended, Unmask, DecodeLength, ReadWord;
    BlockEndsBefore(|file|, Start(p), b);
  }

  lemma BlockEndsBefore(size: nat, s: nat, b: nat)
    requires b % BLOCK_SIZE == 0 && s < b <= size && s % BLOCK_SIZE + HEADER_SIZE <= BLOCK_SIZE
    ensures var end := BlockEnd(size, s); s + HEADER_SIZE <= end <= b && end % BLOCK_SIZE == 0
  {
  }

  /** Whatever stands before the block at `b`: what is returned ends there, or it is the next record of the log that
      begins at `b`. */
  lemma {:induction false} DamageIsContained(file: seq<byte>, b: nat, records: seq<seq<byte>>, p: nat,
                                             scratch: seq<byte>, inside: bool)
    requires b % BLOCK_SIZE == 0 && p <= b <= |file| && IsPrefix(file[b..], LogBytes(records, b))
    requires forall q: nat :: q < b ==> !IsFalseEnd(file, q)
    ensures var r := NextRecord(file, p, scratch, inside);
            || (r.ok && r.next <= b)
            || (if records != [] && |file| >= b + |RecordBytes(records[0], b, true)| then
                  && r.ok && r.record == records[0] && r.next == b + |RecordBytes(records[0], b, true)|
                  && IsPrefix(file[r.next..], LogBytes(records[1..], r.next))
                else !r.ok)
    decreases |file| - p
  {
    hide NextPhysical, NextRecord, RecordBytes, LogBytes, IsPrefix, IsFalseEnd;
    BlockIsNotSkipped(p, b);
    if Start(p) == b {
      SameStart(file, p, b, scratch, inside);
      NextOfLog(file, b, records, scratch, inside);
    } else {
      WithinBlocks(file, p, b);
      RecordUnfolds(file, p, scratch, inside);
      var r := NextPhysical(file, p);
      if r.recordType == FIRST {
        DamageIsContained(file, b, records, r.next, r.fragment, true);
      } else if r.recordType == MIDDLE && inside {
        DamageIsContained(file, b, records, r.next, scratch + r.fragment, true);
      } else if r.recordType == MIDDLE || (r.recordType == LAST && !inside)
                || (r.recordType == BAD_RECORD && !inside) {
        DamageIsContained(file, b, records, r.next, scratch, inside);
      } else if r.recordType != FULL && r.recordType != LAST {
        DamageIsContained(file, b, records, r.next, [], false);
      }
    }
  }

  lemma BlockIsNotSkipped(p: nat, b: nat)
    requires p <= b && b % BLOCK_SIZE == 0
    ensures Start(p) <= b && (p < b || Start(p) == b)
  {
  }

  lemma SameStart(file: seq<byte>, p: nat, b: nat, scratch: seq<byte>, inside: bool)
    requires p <= b <= |file| && Start(p) == b == Start(b)
    ensures NextRecord(file, p, scratch, inside) == NextRecord(file, b, scratch, inside)
  {
    hide NextPhysical, IsOutOfPlace, NextRecord, Start;
    SamePhysical(file, p, b);
    RecordUnfolds(file, p, scratch, inside);
    RecordUnfolds(file, b, scratch, inside);
  }

  lemma SamePhysical(file: seq<byte>, p: nat, b: nat)
    requires Start(p) == Start(b)
    ensures NextPhysical(file, p) == NextPhysical(file, b)
  {
    hide Start, BlockEnd, Extended, Unmask, DecodeLength, ReadWord;
  }

  /** A fragment that is reported: it cuts off a record, belongs to none, or is of no known type. */
  predicate IsOutOfPlace(recordType: byte, inFragmentedRecord: bool, scratch: seq<byte>) {
    match recordType
    case 1 => inFragmentedRecord && scratch != []
    case 2 => inFragmentedRecord && scratch != []
    case 3 => !inFragmentedRecord
    case 4 => !inFragmentedRecord
    case 5 => false
    case 6 => inFragmentedRecord
    case _ => true
  }

  lemma SameWord(a: seq<byte>, b: seq<byte>)
    requires |a| >= 4 && |b| >= 4 && a[..4] == b[..4]
    ensures ReadWord(a, 0) == ReadWord(b, 0)
  {
    assert forall i :: 0 <= i < 4 ==> a[i] == a[..4][i] && b[i] == b[..4][i];
  }

  /** When the file holds a whole fragment next, this is what comes back; when it is cut before the end of that
      fragment, the end of the file is.  Nothing is reported. */
  lemma ExpectedPhysical(file: seq<byte>, p: nat, t: byte, payload: seq<byte>, more: seq<byte>)
    requires p <= |file| && Expects(file[p..], p, t, payload, more)
    ensures var r := NextPhysical(file, p); var end := Start(p) + HEADER_SIZE + |payload|;
            && r.reports == []
            && (if |file| >= end then
                  r.recordType == t && r.fragment == payload && r.next == end && IsPrefix(file[end..], more)
                else r.recordType == EOF && r.next == |file|)
  {
    hide Expects, Extended, Unmask, DecodeLength, ReadWord, Avail, Pad;
    var s := Start(p);
    StartIs(p);
    if |file| >= s + HEADER_SIZE {
      var end := BlockEnd(|file|, s);
      var header := file[s..end];
      var rest := file[p..];
      assert header == rest[Pad(p)..][..|header|];
      HeaderIs(header, rest, p, t, payload, more);
      var stop := s + HEADER_SIZE + |payload|;
      assert file[s + 4] == header[4] && file[s + 5] == header[5] && file[s + 6] == header[6];
      FitsBlock(|file|, p, |payload|);
      if |file| >= stop {
        PayloadIs(header, rest, p, t, payload, more);
        SameWord(header, file[s..s + 7]);
        SliceOfSlice(file, s, end, HEADER_SIZE, HEADER_SIZE + |payload|);
        SliceOfSlice(file, s, end, 6, HEADER_SIZE + |payload|);
        assert rest[Pad(p) + HEADER_SIZE + |payload|..] == file[stop..];
      }
    }
  }

  lemma TrailerIsLeft(p: nat, end: nat)
    requires p <= end < p + HEADER_SIZE && end % BLOCK_SIZE == 0 && p % BLOCK_SIZE + (end - p) <= BLOCK_SIZE
    ensures Start(p) == end
  {
  }

  lemma PlaceOf(consumed: nat, n: nat)
    requires consumed % BLOCK_SIZE == 0 && n <= BLOCK_SIZE
    ensures (consumed + n) % BLOCK_SIZE == if n == BLOCK_SIZE then 0 else n
  {
  }

  lemma StartIs(p: nat)
    ensures Start(p) == p + Pad(p)
  {
  }

  /** A fragment that fits its block. */
  lemma FitsBlock(size: nat, p: nat, n: nat)
    requires n <= Avail(p) && size >= Start(p) + HEADER_SIZE
    ensures var end, stop := BlockEnd(size, Start(p)), Start(p) + HEADER_SIZE + n;
            && Start(p) + HEADER_SIZE <= end <= size
            && (stop > end <==> stop > size) && (stop > end ==> end == size && end % BLOCK_SIZE != 0)
  {
  }

  lemma NoHeader(file: seq<byte>, p: nat)
    requires |file| < Start(p) + HEADER_SIZE
    ensures NextPhysical(file, p) == Physical(EOF, [], |file|, [])
  {
  }

  /** The file from `p` on is a record, `left` of it unread after `scratch`, then `tail`; the record ends at `end`. */
  ghost predicate InRecord(rest: seq<byte>, p: nat, scratch: seq<byte>, left: seq<byte>, begin: bool, tail: seq<byte>,
                           record: seq<byte>, end: nat) {
    && IsPrefix(rest, RecordBytes(left, p, begin) + tail) && p + |RecordBytes(left, p, begin)| == end
    && scratch + left == record && (begin ==> scratch == [])
  }

  lemma TypeTells(begin: bool, last: bool)
    ensures var t := TypeOf(begin, last); 1 <= t <= 4 && (t == 1 || t == 2 <==> begin) && (t == 1 || t == 4 <==> last)
  {
  }

  lemma FirstOfLog(rest: seq<byte>, records: seq<seq<byte>>, p: nat)
    requires IsPrefix(rest, LogBytes(records, p))
    ensures records == [] ==> rest == []
    ensures var first := if records == [] then [] else records[0];
            var end := p + |RecordBytes(first, p, true)|;
            InRecord(rest, p, [], first, true, if records == [] then [] else LogBytes(records[1..], end), first, end)
  {
    hide RecordBytes;
  }

  lemma ExpectedInRecord(rest: seq<byte>, p: nat, scratch: seq<byte>, left: seq<byte>, begin: bool, tail: seq<byte>,
                         record: seq<byte>, end: nat)
    requires InRecord(rest, p, scratch, left, begin, tail, record, end)
    ensures var n := Fit(left, p); var last := |left| == n; var p' := Start(p) + HEADER_SIZE + n;
            var more := if last then tail else RecordBytes(left[n..], p', false) + tail;
            Expects(rest, p, TypeOf(begin, last), left[..n], more) && p' <= end
  {
    hide RecordBytes, Expects, Avail, Pad;
    ExpectedRecord(rest, p, left, begin, tail);
  }

  /** After the next fragment, either the record is complete or less of it is left. */
  lemma AfterExpected(rest': seq<byte>, p: nat, scratch: seq<byte>, left: seq<byte>, begin: bool, tail: seq<byte>,
                      record: seq<byte>, end: nat)
    requires exists rest :: InRecord(rest, p, scratch, left, begin, tail, record, end)
    requires var n := Fit(left, p); var p' := Start(p) + HEADER_SIZE + n;
             IsPrefix(rest', if |left| == n then tail else RecordBytes(left[n..], p', false) + tail)
    ensures var n := Fit(left, p); var p' := Start(p) + HEADER_SIZE + n; var scratch' := scratch + left[..n];
            && (if |left| == n then scratch' == record && p' == end && IsPrefix(rest', tail)
                else InRecord(rest', p', scratch', left[n..], false, tail, record, end))
            && (begin ==> scratch == [] && scratch' == left[..n])
  {
    hide RecordBytes, Expects, Avail, Pad;
    var rest :| InRecord(rest, p, scratch, left, begin, tail, record, end);
    ExpectedRecord(rest, p, left, begin, tail);
    var n := Fit(left, p);
    assert left == left[..n] + left[n..];
  }

  lemma HeaderIs(buffer: seq<byte>, rest: seq<byte>, p: nat, t: byte, payload: seq<byte>, more: seq<byte>)
    requires Expects(rest, p, t, payload, more)
    requires HEADER_SIZE <= |buffer| && Pad(p) + |buffer| <= |rest| && buffer == rest[Pad(p)..][..|buffer|]
    ensures DecodeLength(buffer[4], buffer[5]) == |payload| && buffer[6] == t && 1 <= t <= 4 && |payload| <= Avail(p)
    ensures Unmask(ReadWord(buffer, 0)) == Extended(0, [t] + payload)
  {
    hide Pad, Unmask, Extended, DecodeLength;
    ExpectedHeader(rest, p, t, payload, more);
    assert buffer[..HEADER_SIZE] == rest[Pad(p)..Pad(p) + HEADER_SIZE];
    assert ReadWord(buffer, 0) == ReadWord(buffer[..HEADER_SIZE], 0);
  }

  lemma PayloadIs(buffer: seq<byte>, rest: seq<byte>, p: nat, t: byte, payload: seq<byte>, more: seq<byte>)
    requires Expects(rest, p, t, payload, more)
    requires HEADER_SIZE + |payload| <= |buffer| && Pad(p) + |buffer| <= |rest| && buffer == rest[Pad(p)..][..|buffer|]
    ensures buffer[HEADER_SIZE..HEADER_SIZE + |payload|] == payload
    ensures buffer[6..HEADER_SIZE + |payload|] == [t] + payload
    ensures IsPrefix(rest[Pad(p) + HEADER_SIZE + |payload|..], more)
  {
    hide Pad, Expects, IsPrefix;
    ExpectedPayload(rest, p, t, payload, more);
    var start := Pad(p) + HEADER_SIZE;
    assert rest[Pad(p)..][..|buffer|] == rest[Pad(p)..Pad(p) + |buffer|];
    SliceOfSlice(rest, Pad(p), Pad(p) + |buffer|, HEADER_SIZE, HEADER_SIZE + |payload|);
    assert buffer[6] == rest[start - 1];
  }
}
