/** The format of a table block (table/block_builder.cc, table/block.cc): entries whose keys share a prefix with the key
before, restart points where nothing is shared, and the array of restart points at the end. */
module BlockFormat {
  import opened Bytes
  import opened Coding

  datatype Entry = Entry(key: seq<byte>, value: seq<byte>)

  /** A comparator gives each key its place in an arbitrary total order. */
  type Comparator = seq<byte> -> real

  ghost predicate Increasing(place: Comparator, entries: seq<Entry>) {
    forall i, j :: 0 <= i < j < |entries| ==> place(entries[i].key) < place(entries[j].key)
  }

  function Lengths(shared: nat, nonShared: nat, valueLength: nat): seq<byte> {
    Varint(shared) + Varint(nonShared) + Varint(valueLength)
  }

  function EntryBytes(shared: nat, e: Entry): seq<byte>
    requires shared <= |e.key|
  {
    Lengths(shared, |e.key| - shared, |e.value|) + e.key[shared..] + e.value
  }

  lemma EntryBytesLength(shared: nat, e: Entry)
    requires shared <= |e.key|
    ensures |EntryBytes(shared, e)| > |e.key| - shared + |e.value|
  {
  }

  /** Where the entries of a block are: entry `i` takes the bytes from `offsets[i]` to `offsets[i + 1]` and shares
      `shared[i]` bytes with the key before; `marks` are the indices of the entries at restart points. */
  datatype Layout = Layout(entries: seq<Entry>, offsets: seq<nat>, shared: seq<nat>, marks: seq<nat>)

  ghost predicate EntryAt(l: Layout, buffer: seq<byte>, i: nat)
    requires i < |l.entries| == |l.shared| && |l.offsets| == |l.entries| + 1
  {
    var e, shared := l.entries[i], l.shared[i];
    && shared <= |e.key| && |e.key| < TWO_TO_32 && |e.value| < TWO_TO_32
    && (if i == 0 then shared == 0
        else shared <= |l.entries[i - 1].key| && e.key[..shared] == l.entries[i - 1].key[..shared])
    && l.offsets[i] < l.offsets[i + 1] <= |buffer| && buffer[l.offsets[i]..l.offsets[i + 1]] == EntryBytes(shared, e)
  }

  ghost predicate MarkAt(l: Layout, j: nat)
    requires j < |l.marks| && |l.entries| == |l.shared|
  {
    && (j == 0 ==> l.marks[j] == 0)
    && (j > 0 ==> l.marks[j - 1] < l.marks[j] < |l.entries|)
    && (l.marks[j] < |l.entries| ==> l.shared[l.marks[j]] == 0)
  }

  ghost predicate IsLayout(l: Layout, buffer: seq<byte>) {
    && |l.shared| == |l.entries| && |l.offsets| == |l.entries| + 1 && |l.marks| > 0
    && l.offsets[0] == 0 && l.offsets[|l.entries|] == |buffer|
    && (forall i :: 0 <= i < |l.entries| ==> EntryAt(l, buffer, i))
    && (forall j :: 0 <= j < |l.marks| ==> MarkAt(l, j))
  }

  /** The restart points are the offsets of the marked entries. */
  ghost predicate Restarts(l: Layout, restarts: seq<nat>) {
    && |restarts| == |l.marks|
    && forall j :: 0 <= j < |restarts| ==> l.marks[j] < |l.offsets| && restarts[j] == l.offsets[l.marks[j]]
  }

  function RestartArray(restarts: seq<nat>): seq<byte> {
    if restarts == [] then [] else RestartArray(restarts[..|restarts| - 1]) + Fixed(restarts[|restarts| - 1], 4)
  }

  /** The bytes of a finished block. */
  function BlockBytes(buffer: seq<byte>, restarts: seq<nat>): seq<byte> {
    buffer + RestartArray(restarts) + Fixed(|restarts|, 4)
  }

  lemma {:induction false} OffsetsAscend(l: Layout, buffer: seq<byte>, i: nat, j: nat)
    requires IsLayout(l, buffer) && i < j <= |l.entries|
    ensures l.offsets[i] < l.offsets[j] <= |buffer|
  {
    assert EntryAt(l, buffer, j - 1);
    if i < j - 1 {
      OffsetsAscend(l, buffer, i, j - 1);
    }
  }

  lemma {:induction false} RestartArrayAt(restarts: seq<nat>, j: nat)
    requires j < |restarts|
    ensures |RestartArray(restarts)| == 4 * |restarts|
    ensures RestartArray(restarts)[4 * j..4 * j + 4] == Fixed(restarts[j], 4)
  {
    hide Fixed;
    var init := restarts[..|restarts| - 1];
    if init != [] {
      RestartArrayAt(init, if j < |init| then j else 0);
    }
    if j < |init| {
      assert RestartArray(restarts)[4 * j..4 * j + 4] == RestartArray(init)[4 * j..4 * j + 4];
    }
  }

  // ----- decoding an entry -----

  datatype Header = Header(shared: nat, nonShared: nat, valueLength: nat)

  /** Three lengths, and then as many bytes as two of them say; 32-bit arithmetic. */
  function ParseHeader(input: seq<byte>): Parsed<Header> {
    match ParseVarint32(input)
    case NotParsed => NotParsed
    case Parsed(shared, rest1) =>
      match ParseVarint32(rest1)
      case NotParsed => NotParsed
      case Parsed(nonShared, rest2) =>
        match ParseVarint32(rest2)
        case NotParsed => NotParsed
        case Parsed(valueLength, rest) =>
          if |rest| % TWO_TO_32 < (nonShared + valueLength) % TWO_TO_32 then NotParsed
          else Parsed(Header(shared, nonShared, valueLength), rest)
  }

  lemma OneByte(input: seq<byte>)
    requires input != [] && NatOf(input[0]) < 128
    ensures ParseVarint32(input) == Parsed(NatOf(input[0]), input[1..])
  {
    hide NatOf;
  }

  lemma ParseNeedsByte(input: seq<byte>)
    ensures var r := ParseVarint32(input); r.Parsed? ==> |r.rest| < |input|
  {
    hide NatOf;
    VarintShrinks(input, 5);
  }

  /** Parsing leaves the end of the input. */
  ghost predicate IsSuffix(rest: seq<byte>, input: seq<byte>) {
    |rest| <= |input| && rest == input[|input| - |rest|..]
  }

  lemma SuffixOfSuffix(a: seq<byte>, b: seq<byte>, c: seq<byte>)
    requires IsSuffix(a, b) && IsSuffix(b, c)
    ensures IsSuffix(a, c)
  {
  }

  lemma {:induction false} VarintLeavesSuffix(input: seq<byte>, count: nat)
    ensures var r := ParseVarint(input, count); r.Parsed? ==> IsSuffix(r.rest, input)
  {
    hide NatOf;
    if count > 0 && input != [] {
      VarintLeavesSuffix(input[1..], count - 1);
    }
  }

  lemma HeaderLeavesSuffix(input: seq<byte>)
    ensures var r := ParseHeader(input); r.Parsed? ==> IsSuffix(r.rest, input)
  {
    hide ParseVarint, IsSuffix;
    VarintLeavesSuffix(input, 5);
    var a := ParseVarint32(input);
    if a.Parsed? {
      VarintLeavesSuffix(a.rest, 5);
      var b := ParseVarint32(a.rest);
      if b.Parsed? {
        SuffixOfSuffix(b.rest, a.rest, input);
        VarintLeavesSuffix(b.rest, 5);
        var c := ParseVarint32(b.rest);
        if c.Parsed? {
          SuffixOfSuffix(c.rest, b.rest, input);
        }
      }
    }
  }

  /** `DecodeEntry`: the fast path for three one-byte lengths gives what the general path gives. */
  method DecodeEntry(input: seq<byte>) returns (r: Parsed<Header>)
    ensures r == ParseHeader(input)
  {
    hide NatOf, ParseVarint32;
    if |input| < 3 {
      ParseNeedsByte(input);
      var a := ParseVarint32(input);
      if a.Parsed? {
        ParseNeedsByte(a.rest);
        var b := ParseVarint32(a.rest);
        if b.Parsed? {
          ParseNeedsByte(b.rest);
        }
      }
      return NotParsed;
    }
    var shared, nonShared, valueLength := NatOf(input[0]), NatOf(input[1]), NatOf(input[2]);
    var rest;
    if shared < 128 && nonShared < 128 && valueLength < 128 {
      OneByte(input);
      OneByte(input[1..]);
      OneByte(input[2..]);
      assert input[1..][1..] == input[2..] && input[2..][1..] == input[3..];
      rest := input[3..];
    } else {
      var a := GetVarint32(input);
      if a.NotParsed? {
        return NotParsed;
      }
      var b := GetVarint32(a.rest);
      if b.NotParsed? {
        return NotParsed;
      }
      var c := GetVarint32(b.rest);
      if c.NotParsed? {
        return NotParsed;
      }
      shared, nonShared, valueLength, rest := a.value, b.value, c.value, c.rest;
    }
    if |rest| % TWO_TO_32 < (nonShared + valueLength) % TWO_TO_32 {
      return NotParsed;
    }
    return Parsed(Header(shared, nonShared, valueLength), rest);
  }

  lemma HeaderRoundTrip(shared: nat, e: Entry, rest: seq<byte>)
    requires shared <= |e.key| < TWO_TO_32 && |e.value| < TWO_TO_32
    requires |e.key[shared..] + e.value + rest| < TWO_TO_32
    ensures ParseHeader(EntryBytes(shared, e) + rest)
            == Parsed(Header(shared, |e.key| - shared, |e.value|), e.key[shared..] + e.value + rest)
  {
    hide Varint, ParseVarint32;
    var tail := e.key[shared..] + e.value + rest;
    var n := |e.key| - shared;
    assert EntryBytes(shared, e) + rest == Varint(shared) + (Varint(n) + (Varint(|e.value|) + tail));
    Varint32RoundTrip(shared, Varint(n) + (Varint(|e.value|) + tail));
    Varint32RoundTrip(n, Varint(|e.value|) + tail);
    Varint32RoundTrip(|e.value|, tail);
  }

  /** Decoding at the offset of an entry. */
  lemma DecodesAt(l: Layout, buffer: seq<byte>, i: nat)
    requires IsLayout(l, buffer) && i < |l.entries| && |buffer| < TWO_TO_32
    ensures l.offsets[i] < |buffer| && l.shared[i] <= |l.entries[i].key|
    ensures var e, shared, n := l.entries[i], l.shared[i], |l.entries[i].key| - l.shared[i];
            match ParseHeader(buffer[l.offsets[i]..])
            case NotParsed => false
            case Parsed(h, rest) =>
              && h == Header(shared, n, |e.value|)
              && |rest| >= n + |e.value| && rest[..n] == e.key[shared..] && rest[n..n + |e.value|] == e.value
              && |buffer| - |rest| + n + |e.value| == l.offsets[i + 1]
  {
    hide EntryBytes, ParseHeader;
    assert EntryAt(l, buffer, i);
    var from, to := l.offsets[i], l.offsets[i + 1];
    var e, shared := l.entries[i], l.shared[i];
    assert buffer[from..] == EntryBytes(shared, e) + buffer[to..];
    EntryBytesLength(shared, e);
    HeaderRoundTrip(shared, e, buffer[to..]);
  }
}
