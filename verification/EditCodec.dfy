/** The records of the manifest (db/version_edit.cc): an edit survives `EncodeTo` and `DecodeFrom`. */
module EditCodec {
  import opened Common
  import Levels
  import opened Bytes
  import opened Coding

  datatype File = File(number: nat, size: nat, smallest: seq<byte>, largest: seq<byte>)

  datatype Deleted = Deleted(level: nat, number: nat)

  /** The set of deleted files is kept in ascending order. */
  datatype Edit = Edit(comparator: Option<seq<byte>>, logNumber: Option<nat>, prevLogNumber: Option<nat>,
                       nextFileNumber: Option<nat>, lastSequence: Option<nat>,
                       compactPointers: seq<(nat, seq<byte>)>, deletedFiles: seq<Deleted>, newFiles: seq<(nat, File)>)

  const FRESH := Edit(None, None, None, None, None, [], [], [])

  predicate DeletedBefore(a: Deleted, b: Deleted) {
    a.level < b.level || (a.level == b.level && a.number < b.number)
  }

  ghost predicate Ascending(files: seq<Deleted>) {
    forall i, j :: 0 <= i < j < |files| ==> DeletedBefore(files[i], files[j])
  }

  /** One tagged record of an encoded edit. */
  datatype Item =
    | Comparator(name: seq<byte>)
    | LogNumber(n: nat)
    | NextFileNumber(n: nat)
    | LastSequence(n: nat)
    | CompactPointer(level: nat, key: seq<byte>)
    | DeletedFile(file: Deleted)
    | NewFile(level: nat, meta: File)
    | PrevLogNumber(n: nat)

  function ItemBytes(item: Item): seq<byte> {
    match item
    case Comparator(name) => Varint(1) + LengthPrefixed(name)
    case LogNumber(n) => Varint(2) + Varint(n)
    case NextFileNumber(n) => Varint(3) + Varint(n)
    case LastSequence(n) => Varint(4) + Varint(n)
    case CompactPointer(level, key) => Varint(5) + Varint(level) + LengthPrefixed(key)
    case DeletedFile(f) => Varint(6) + Varint(f.level) + Varint(f.number)
    case NewFile(level, f) =>
      var keys := LengthPrefixed(f.smallest) + LengthPrefixed(f.largest);
      Varint(7) + Varint(level) + Varint(f.number) + Varint(f.size) + keys
    case PrevLogNumber(n) => Varint(9) + Varint(n)
  }

  ghost predicate ItemOk(item: Item) {
    match item
    case Comparator(name) => |name| < TWO_TO_32
    case CompactPointer(level, key) => level < Levels.NUM_LEVELS && |key| < TWO_TO_32
    case DeletedFile(f) => f.level < Levels.NUM_LEVELS && f.number < TWO_TO_64
    case NewFile(level, f) =>
      && level < Levels.NUM_LEVELS && f.number < TWO_TO_64 && f.size < TWO_TO_64
      && |f.smallest| < TWO_TO_32 && |f.largest| < TWO_TO_32
    case _ => item.n < TWO_TO_64
  }

  function ItemsBytes(items: seq<Item>): seq<byte> {
    if items == [] then [] else ItemBytes(items[0]) + ItemsBytes(items[1..])
  }

  // ----- decoding -----

  /** `GetLevel` */
  function ParseLevel(input: seq<byte>): Parsed<nat> {
    match ParseVarint32(input)
    case NotParsed => NotParsed
    case Parsed(v, rest) => if v < Levels.NUM_LEVELS then Parsed(v, rest) else NotParsed
  }

  function ParseNumber(input: seq<byte>, make: nat -> Item): Parsed<Item> {
    match ParseVarint64(input)
    case NotParsed => NotParsed
    case Parsed(n, rest) => Parsed(make(n), rest)
  }

  /** One case of the switch in `DecodeFrom`. */
  function ParseItem(tag: nat, input: seq<byte>): Parsed<Item> {
    match tag
    case 1 =>
      (match ParseSlice(input) case NotParsed => NotParsed case Parsed(name, rest) => Parsed(Comparator(name), rest))
    case 2 => ParseNumber(input, (n: nat) => LogNumber(n))
    case 9 => ParseNumber(input, (n: nat) => PrevLogNumber(n))
    case 3 => ParseNumber(input, (n: nat) => NextFileNumber(n))
    case 4 => ParseNumber(input, (n: nat) => LastSequence(n))
    case 5 =>
      (match ParseLevel(input)
       case NotParsed => NotParsed
       case Parsed(level, rest) =>
         match ParseSlice(rest) case NotParsed => NotParsed
             case Parsed(key, rest') => Parsed(CompactPointer(level, key), rest'))
    case 6 =>
      (match ParseLevel(input)
       case NotParsed => NotParsed
       case Parsed(level, rest) => ParseNumber(rest, (n: nat) => DeletedFile(Deleted(level, n))))
    case 7 => ParseNewFile(input)
    case _ => NotParsed
  }

  function ParseNewFile(input: seq<byte>): Parsed<Item> {
    match ParseLevel(input)
    case NotParsed => NotParsed
    case Parsed(level, rest1) =>
      match ParseVarint64(rest1)
      case NotParsed => NotParsed
      case Parsed(number, rest2) =>
        match ParseVarint64(rest2)
        case NotParsed => NotParsed
        case Parsed(size, rest3) =>
          match ParseSlice(rest3)
          case NotParsed => NotParsed
          case Parsed(smallest, rest4) =>
            match ParseSlice(rest4)
            case NotParsed => NotParsed
            case Parsed(largest, rest) => Parsed(NewFile(level, File(number, size, smallest, largest)), rest)
  }

  function TagOf(item: Item): nat {
    match item
    case Comparator(_) => 1
    case LogNumber(_) => 2
    case NextFileNumber(_) => 3
    case LastSequence(_) => 4
    case CompactPointer(_, _) => 5
    case DeletedFile(_) => 6
    case NewFile(_, _) => 7
    case PrevLogNumber(_) => 9
  }

  /** The item without its tag. */
  function Body(item: Item): seq<byte> {
    match item
    case Comparator(name) => LengthPrefixed(name)
    case CompactPointer(level, key) => Varint(level) + LengthPrefixed(key)
    case DeletedFile(f) => Varint(f.level) + Varint(f.number)
    case NewFile(level, f) =>
      var keys := LengthPrefixed(f.smallest) + LengthPrefixed(f.largest);
      Varint(level) + (Varint(f.number) + (Varint(f.size) + keys))
    case _ => Varint(item.n)
  }

  lemma ItemIsTagAndBody(item: Item)
    ensures ItemBytes(item) == Varint(TagOf(item)) + Body(item)
  {
    hide Varint, LengthPrefixed;
    if item.NewFile? {
      var a, b, c, d, e := Varint(item.level), Varint(item.meta.number), Varint(item.meta.size),
          LengthPrefixed(item.meta.smallest), LengthPrefixed(item.meta.largest);
      assert Varint(7) + a + b + c + d + e == Varint(7) + (a + (b + (c + (d + e))));
    }
  }

  lemma BodyRoundTrip(item: Item, rest: seq<byte>)
    requires ItemOk(item)
    ensures ParseItem(TagOf(item), Body(item) + rest) == Parsed(item, rest)
  {
    hide Varint, LengthPrefixed, ParseVarint32, ParseVarint64, ParseSlice;
    match item
    case Comparator(name) =>
      SliceRoundTrip(name, rest);
    case CompactPointer(level, key) =>
      assert Body(item) + rest == Varint(level) + (LengthPrefixed(key) + rest);
      Varint32RoundTrip(level, LengthPrefixed(key) + rest);
      SliceRoundTrip(key, rest);
    case DeletedFile(f) =>
      assert Body(item) + rest == Varint(f.level) + (Varint(f.number) + rest);
      Varint32RoundTrip(f.level, Varint(f.number) + rest);
      Varint64RoundTrip(f.number, rest);
    case NewFile(level, f) =>
      NewFileRoundTrip(level, f, rest);
    case _ =>
      Varint64RoundTrip(item.n, rest);
  }

  lemma NewFileRoundTrip(level: nat, f: File, rest: seq<byte>)
    requires ItemOk(NewFile(level, f))
    ensures ParseNewFile(Body(NewFile(level, f)) + rest) == Parsed(NewFile(level, f), rest)
  {
    hide Varint, LengthPrefixed, ParseVarint32, ParseVarint64, ParseSlice;
    var e := LengthPrefixed(f.largest) + rest;
    var d := LengthPrefixed(f.smallest) + e;
    var c := Varint(f.size) + d;
    var b := Varint(f.number) + c;
    assert Body(NewFile(level, f)) + rest == Varint(level) + b;
    Varint32RoundTrip(level, b);
    Varint64RoundTrip(f.number, c);
    Varint64RoundTrip(f.size, d);
    SliceRoundTrip(f.smallest, e);
    SliceRoundTrip(f.largest, rest);
  }

  // ----- the items of an edit -----

  function Insert(files: seq<Deleted>, f: Deleted): seq<Deleted> {
    if files == [] || DeletedBefore(f, files[0]) then [f] + files
    else if files[0] == f then files
    else [files[0]] + Insert(files[1..], f)
  }

  function ApplyItem(e: Edit, item: Item): Edit {
    match item
    case Comparator(name) => e.(comparator := Some(name))
    case LogNumber(n) => e.(logNumber := Some(n))
    case PrevLogNumber(n) => e.(prevLogNumber := Some(n))
    case NextFileNumber(n) => e.(nextFileNumber := Some(n))
    case LastSequence(n) => e.(lastSequence := Some(n))
    case CompactPointer(level, key) => e.(compactPointers := e.compactPointers + [(level, key)])
    case DeletedFile(f) => e.(deletedFiles := Insert(e.deletedFiles, f))
    case NewFile(level, f) => e.(newFiles := e.newFiles + [(level, f)])
  }

  function ApplyItems(e: Edit, items: seq<Item>): Edit {
    if items == [] then e else ApplyItem(ApplyItems(e, items[..|items| - 1]), items[|items| - 1])
  }

  function ComparatorItems(e: Edit): seq<Item> {
    if e.comparator.None? then [] else [Comparator(e.comparator.value)]
  }

  function LogItems(e: Edit): seq<Item> {
    if e.logNumber.None? then [] else [LogNumber(e.logNumber.value)]
  }

  function PrevLogItems(e: Edit): seq<Item> {
    if e.prevLogNumber.None? then [] else [PrevLogNumber(e.prevLogNumber.value)]
  }

  function NextFileItems(e: Edit): seq<Item> {
    if e.nextFileNumber.None? then [] else [NextFileNumber(e.nextFileNumber.value)]
  }

  function LastSequenceItems(e: Edit): seq<Item> {
    if e.lastSequence.None? then [] else [LastSequence(e.lastSequence.value)]
  }

  function Numbers(e: Edit): seq<Item> {
    ComparatorItems(e) + LogItems(e) + PrevLogItems(e) + NextFileItems(e) + LastSequenceItems(e)
  }

  function Pointers(e: Edit): seq<Item> {
    var ps := e.compactPointers;
    seq(|ps|, i requires 0 <= i < |ps| => CompactPointer(ps[i].0, ps[i].1))
  }

  function Deletions(e: Edit): seq<Item> {
    seq(|e.deletedFiles|, i requires 0 <= i < |e.deletedFiles| => DeletedFile(e.deletedFiles[i]))
  }

  function Additions(e: Edit): seq<Item> {
    seq(|e.newFiles|, i requires 0 <= i < |e.newFiles| => NewFile(e.newFiles[i].0, e.newFiles[i].1))
  }

  /** In the order in which `EncodeTo` writes them. */
  function ItemsOf(e: Edit): seq<Item> {
    Numbers(e) + Pointers(e) + Deletions(e) + Additions(e)
  }

  ghost predicate EditOk(e: Edit) {
    Ascending(e.deletedFiles) && forall i :: 0 <= i < |ItemsOf(e)| ==> ItemOk(ItemsOf(e)[i])
  }

  lemma {:induction false} ApplyItemsAppend(e: Edit, a: seq<Item>, b: seq<Item>)
    ensures ApplyItems(e, a + b) == ApplyItems(ApplyItems(e, a), b)
  {
    hide ApplyItem;
    if b == [] {
      assert a + b == a;
    } else {
      assert (a + b)[..|a + b| - 1] == a + b[..|b| - 1];
      ApplyItemsAppend(e, a, b[..|b| - 1]);
    }
  }

  lemma ApplyOne(e: Edit, items: seq<Item>, k: nat)
    requires k < |items|
    ensures ApplyItems(e, items[..k + 1]) == ApplyItem(ApplyItems(e, items[..k]), items[k])
  {
    assert items[..k + 1][..k] == items[..k];
  }

  lemma {:induction false} ApplyPointers(x: Edit, e: Edit, k: nat)
    requires k <= |e.compactPointers|
    ensures ApplyItems(x, Pointers(e)[..k]) == x.(compactPointers := x.compactPointers + e.compactPointers[..k])
  {
    if k > 0 {
      ApplyPointers(x, e, k - 1);
      ApplyOne(x, Pointers(e), k - 1);
      assert e.compactPointers[..k] == e.compactPointers[..k - 1] + [e.compactPointers[k - 1]];
    }
  }

  lemma {:induction false} ApplyAdditions(x: Edit, e: Edit, k: nat)
    requires k <= |e.newFiles|
    ensures ApplyItems(x, Additions(e)[..k]) == x.(newFiles := x.newFiles + e.newFiles[..k])
  {
    if k > 0 {
      ApplyAdditions(x, e, k - 1);
      ApplyOne(x, Additions(e), k - 1);
      assert e.newFiles[..k] == e.newFiles[..k - 1] + [e.newFiles[k - 1]];
    }
  }

  lemma {:induction false} InsertAtEnd(files: seq<Deleted>, f: Deleted)
    requires forall i :: 0 <= i < |files| ==> DeletedBefore(files[i], f)
    ensures Insert(files, f) == files + [f]
  {
    if files != [] {
      assert DeletedBefore(files[0], f);
      InsertAtEnd(files[1..], f);
      assert files + [f] == [files[0]] + (files[1..] + [f]);
    }
  }

  lemma {:induction false} ApplyDeletions(x: Edit, e: Edit, k: nat)
    requires k <= |e.deletedFiles| && x.deletedFiles == [] && Ascending(e.deletedFiles)
    ensures ApplyItems(x, Deletions(e)[..k]) == x.(deletedFiles := e.deletedFiles[..k])
  {
    if k > 0 {
      ApplyDeletions(x, e, k - 1);
      ApplyOne(x, Deletions(e), k - 1);
      InsertAtEnd(e.deletedFiles[..k - 1], e.deletedFiles[k - 1]);
      assert e.deletedFiles[..k] == e.deletedFiles[..k - 1] + [e.deletedFiles[k - 1]];
    }
  }

  lemma ApplySingle(x: Edit, item: Item)
    ensures ApplyItems(x, [item]) == ApplyItem(x, item) && ApplyItems(x, []) == x
  {
    assert [item][..0] == [];
  }

  lemma ApplyNumbers(x: Edit, e: Edit)
    requires x == FRESH.(compactPointers := x.compactPointers)
    ensures ApplyItems(x, Numbers(e)) ==
            Edit(e.comparator, e.logNumber, e.prevLogNumber, e.nextFileNumber, e.lastSequence, x.compactPointers,
                 [], [])
  {
    hide ApplyItems;
    var a, b, c, d, f := ComparatorItems(e), LogItems(e), PrevLogItems(e), NextFileItems(e), LastSequenceItems(e);
    ApplyItemsAppend(x, a + b + c + d, f);
    ApplyItemsAppend(x, a + b + c, d);
    ApplyItemsAppend(x, a + b, c);
    ApplyItemsAppend(x, a, b);
    ApplySingle(x, Comparator(if e.comparator.Some? then e.comparator.value else []));
    var xa := ApplyItems(x, a);
    ApplySingle(xa, LogNumber(if e.logNumber.Some? then e.logNumber.value else 0));
    var xb := ApplyItems(xa, b);
    ApplySingle(xb, PrevLogNumber(if e.prevLogNumber.Some? then e.prevLogNumber.value else 0));
    var xc := ApplyItems(xb, c);
    ApplySingle(xc, NextFileNumber(if e.nextFileNumber.Some? then e.nextFileNumber.value else 0));
    var xd := ApplyItems(xc, d);
    ApplySingle(xd, LastSequence(if e.lastSequence.Some? then e.lastSequence.value else 0));
  }

  /** All items of an edit make the edit again; compaction pointers that were there before stay. */
  lemma ItemsMakeEdit(e: Edit, kept: seq<(nat, seq<byte>)>)
    requires Ascending(e.deletedFiles)
    ensures ApplyItems(FRESH.(compactPointers := kept), ItemsOf(e)) == e.(compactPointers := kept + e.compactPointers)
  {
    hide ApplyItems, Numbers, Pointers, Deletions, Additions;
    var x := FRESH.(compactPointers := kept);
    var a, b, c, d := Numbers(e), Pointers(e), Deletions(e), Additions(e);
    ApplyItemsAppend(x, a + b + c, d);
    ApplyItemsAppend(x, a + b, c);
    ApplyItemsAppend(x, a, b);
    ApplyNumbers(x, e);
    var xa := ApplyItems(x, a);
    ListLengths(e);
    ApplyPointers(xa, e, |e.compactPointers|);
    assert b[..|e.compactPointers|] == b && e.compactPointers[..|e.compactPointers|] == e.compactPointers;
    var xb := ApplyItems(xa, b);
    ApplyDeletions(xb, e, |e.deletedFiles|);
    assert c[..|e.deletedFiles|] == c && e.deletedFiles[..|e.deletedFiles|] == e.deletedFiles;
    var xc := ApplyItems(xb, c);
    ApplyAdditions(xc, e, |e.newFiles|);
    assert d[..|e.newFiles|] == d && e.newFiles[..|e.newFiles|] == e.newFiles;
  }

  lemma ListLengths(e: Edit)
    ensures |Pointers(e)| == |e.compactPointers| && |Deletions(e)| == |e.deletedFiles| && |Additions(e)| == |e.newFiles|
  {
  }

  // ----- the code -----

  /** `PutVarint32` and `PutVarint64` */
  method PutVarint(dst: seq<byte>, v: nat) returns (r: seq<byte>)
    requires v < TWO_TO_64
    ensures r == dst + Varint(v)
  {
    var bytes := EncodeVarint64(v);
    r := dst + bytes;
  }

  method EncodeItem(dst: seq<byte>, item: Item) returns (r: seq<byte>)
    requires ItemOk(item)
    ensures r == dst + ItemBytes(item)
  {
    hide Varint, ItemBytes, Body;
    var tagged := PutVarint(dst, TagOf(item));
    r := EncodeBody(tagged, item);
    ItemIsTagAndBody(item);
  }

  method EncodeBody(dst: seq<byte>, item: Item) returns (r: seq<byte>)
    requires ItemOk(item)
    ensures r == dst + Body(item)
  {
    hide Varint, LengthPrefixed;
    r := dst;
    match item {
      case Comparator(name) =>
        r := PutLengthPrefixedSlice(r, name);
      case CompactPointer(level, key) =>
        r := PutVarint(r, level);
        r := PutLengthPrefixedSlice(r, key);
      case DeletedFile(f) =>
        r := PutVarint(r, f.level);
        r := PutVarint(r, f.number);
      case NewFile(level, f) =>
        r := EncodeNewFile(r, level, f);
      case _ =>
        r := PutVarint(r, item.n);
    }
  }

  method EncodeNewFile(dst: seq<byte>, level: nat, f: File) returns (r: seq<byte>)
    requires ItemOk(NewFile(level, f))
    ensures r == dst + Body(NewFile(level, f))
  {
    hide Varint, LengthPrefixed;
    r := PutVarint(dst, level);
    r := PutVarint(r, f.number);
    r := PutVarint(r, f.size);
    r := PutLengthPrefixedSlice(r, f.smallest);
    r := PutLengthPrefixedSlice(r, f.largest);
    FivePieces(dst, Varint(level), Varint(f.number), Varint(f.size), LengthPrefixed(f.smallest),
               LengthPrefixed(f.largest));
  }

  lemma FivePieces(dst: seq<byte>, a: seq<byte>, b: seq<byte>, c: seq<byte>, d: seq<byte>, e: seq<byte>)
    ensures dst + a + b + c + d + e == dst + (a + (b + (c + (d + e))))
  {
  }

  /** `VersionEdit::EncodeTo` */
  method EncodeTo(e: Edit) returns (dst: seq<byte>)
    requires EditOk(e)
    ensures dst == ItemsBytes(ItemsOf(e))
  {
    hide ItemsOf, ItemBytes, ItemOk;
    dst := [];
    var items := ItemsOf(e);
    assert items[0..] == items;
    for i := 0 to |items|
      invariant dst + ItemsBytes(items[i..]) == ItemsBytes(items)
    {
      dst := EncodeItem(dst, items[i]);
      assert items[i..][1..] == items[i + 1..];
    }
  }

  lemma TagRoundTrip(item: Item, rest: seq<byte>)
    requires ItemOk(item)
    ensures ParseVarint32(ItemBytes(item) + rest) == Parsed(TagOf(item), Body(item) + rest)
  {
    hide Varint, ParseVarint32, ItemBytes, Body;
    ItemIsTagAndBody(item);
    assert ItemBytes(item) + rest == Varint(TagOf(item)) + (Body(item) + rest);
    Varint32RoundTrip(TagOf(item), Body(item) + rest);
  }

  lemma NoTagInNothing()
    ensures ParseVarint32([]) == NotParsed
  {
  }

  /** The records of any bytes, if there is nothing else in them. */
  function ParseItems(input: seq<byte>): Option<seq<Item>>
    decreases |input|
  {
    if input == [] then Some([]) else
      match ParseVarint32(input)
      case NotParsed => None
      case Parsed(tag, rest) =>
        TagShrinks(input);
        ItemShrinks(tag, rest);
        match ParseItem(tag, rest)
        case NotParsed => None
        case Parsed(item, rest') => Before(item, ParseItems(rest'))
  }

  function Before(item: Item, items: Option<seq<Item>>): Option<seq<Item>> {
    match items case None => None case Some(more) => Some([item] + more)
  }

  /** The records that were written are the records that are read. */
  lemma {:induction false} ItemsRoundTrip(items: seq<Item>)
    requires forall item :: item in items ==> ItemOk(item)
    ensures ParseItems(ItemsBytes(items)) == Some(items)
  {
    hide ItemBytes, ItemOk, ParseItem, ParseVarint32, Body;
    if items != [] {
      var rest := ItemsBytes(items[1..]);
      TagRoundTrip(items[0], rest);
      BodyRoundTrip(items[0], rest);
      NoTagInNothing();
      ItemsRoundTrip(items[1..]);
      assert [items[0]] + items[1..] == items;
    }
  }

  /** `VersionEdit::DecodeFrom` into an edit that was `before`: clearing it leaves its compaction pointers.  It takes
      exactly the bytes that are records and nothing else, and applies them in order.  What was encoded comes back; into
      a fresh edit, exactly. */
  method DecodeFrom(src: seq<byte>, before: Edit, ghost e: Edit) returns (ok: bool, r: Edit)
    ensures ok <==> ParseItems(src).Some?
    ensures ok ==> r == ApplyItems(FRESH.(compactPointers := before.compactPointers), ParseItems(src).value)
    ensures EditOk(e) && src == ItemsBytes(ItemsOf(e)) ==>
              ok && r == e.(compactPointers := before.compactPointers + e.compactPointers)
    ensures EditOk(e) && src == ItemsBytes(ItemsOf(e)) && before == FRESH ==> ok && r == e
  {
    hide ItemsOf, ItemBytes, ItemOk, ParseItem, ApplyItem, ParseVarint32, Body, ItemsBytes;
    r := FRESH.(compactPointers := before.compactPointers);
    var input := src;
    ghost var start, done: seq<Item> := r, [];
    if EditOk(e) {
      ItemsMakeEdit(e, before.compactPointers);
      ItemsRoundTrip(ItemsOf(e));
    }
    NothingDone(ParseItems(src));
    while true
      invariant r == ApplyItems(start, done)
      invariant ParseItems(src) == After(done, ParseItems(input))
      decreases |input|
    {
      NoTagInNothing();
      var tag := GetVarint32(input);
      if tag.NotParsed? {
        break;
      }
      var item := GetItem(tag.value, tag.rest);
      if item.NotParsed? {
        return false, r;
      }
      TagShrinks(input);
      ItemShrinks(tag.value, tag.rest);
      r := ApplyItem(r, item.value);
      input := item.rest;
      OneMoreDone(start, done, item.value, ParseItems(input));
      done := done + [item.value];
    }
    if input != [] {
      return false, r;
    }
    assert done + [] == done;
    return true, r;
  }

  lemma NothingDone(items: Option<seq<Item>>)
    ensures After([], items) == items
  {
    if items.Some? {
      assert [] + items.value == items.value;
    }
  }

  function After(done: seq<Item>, items: Option<seq<Item>>): Option<seq<Item>> {
    match items case None => None case Some(more) => Some(done + more)
  }

  lemma OneMoreDone(start: Edit, done: seq<Item>, item: Item, items: Option<seq<Item>>)
    ensures After(done, Before(item, items)) == After(done + [item], items)
    ensures ApplyItems(start, done + [item]) == ApplyItem(ApplyItems(start, done), item)
  {
    hide ApplyItem;
    if items.Some? {
      assert done + ([item] + items.value) == done + [item] + items.value;
    }
    assert (done + [item])[..|done|] == done;
  }

  lemma TagShrinks(input: seq<byte>)
    ensures var r := ParseVarint32(input); r.Parsed? ==> |r.rest| < |input|
  {
    VarintShrinks(input, 5);
  }

  lemma SliceShrinks(input: seq<byte>)
    ensures var r := ParseSlice(input); r.Parsed? ==> |r.rest| < |input|
  {
    TagShrinks(input);
  }

  lemma NumberShrinks(input: seq<byte>)
    ensures var r := ParseVarint64(input); r.Parsed? ==> |r.rest| < |input|
  {
    VarintShrinks(input, 10);
  }

  lemma ItemShrinks(tag: nat, input: seq<byte>)
    ensures var r := ParseItem(tag, input); r.Parsed? ==> |r.rest| < |input|
  {
    hide ParseVarint32, ParseVarint64, ParseSlice;
    TagShrinks(input);
    SliceShrinks(input);
    NumberShrinks(input);
    var a := ParseLevel(input);
    if a.Parsed? {
      SliceShrinks(a.rest);
      NumberShrinks(a.rest);
      var b := ParseVarint64(a.rest);
      if b.Parsed? {
        NumberShrinks(b.rest);
        var c := ParseVarint64(b.rest);
        if c.Parsed? {
          SliceShrinks(c.rest);
          var d := ParseSlice(c.rest);
          if d.Parsed? {
            SliceShrinks(d.rest);
          }
        }
      }
    }
  }

  /** The switch of `DecodeFrom`. */
  method GetItem(tag: nat, input: seq<byte>) returns (r: Parsed<Item>)
    ensures r == ParseItem(tag, input)
  {
    hide ParseVarint32, ParseVarint64, ParseSlice;
    if tag == 1 {
      var name := GetLengthPrefixedSlice(input);
      return if name.Parsed? then Parsed(Comparator(name.value), name.rest) else NotParsed;
    } else if tag == 2 || tag == 3 || tag == 4 || tag == 9 {
      var n := GetVarint64(input);
      if n.NotParsed? {
        return NotParsed;
      }
      var item := if tag == 2 then LogNumber(n.value) else if tag == 3 then NextFileNumber(n.value)
                  else if tag == 4 then LastSequence(n.value) else PrevLogNumber(n.value);
      return Parsed(item, n.rest);
    } else if tag == 5 || tag == 6 || tag == 7 {
      var level := GetVarint32(input);
      if level.NotParsed? || level.value >= Levels.NUM_LEVELS {
        return NotParsed;
      }
      if tag == 5 {
        var key := GetLengthPrefixedSlice(level.rest);
        return if key.Parsed? then Parsed(CompactPointer(level.value, key.value), key.rest) else NotParsed;
      }
      var number := GetVarint64(level.rest);
      if number.NotParsed? {
        return NotParsed;
      }
      if tag == 6 {
        return Parsed(DeletedFile(Deleted(level.value, number.value)), number.rest);
      }
      var size := GetVarint64(number.rest);
      if size.NotParsed? {
        return NotParsed;
      }
      var smallest := GetLengthPrefixedSlice(size.rest);
      if smallest.NotParsed? {
        return NotParsed;
      }
      var largest := GetLengthPrefixedSlice(smallest.rest);
      if largest.NotParsed? {
        return NotParsed;
      }
      return Parsed(NewFile(level.value, File(number.value, size.value, smallest.value, largest.value)), largest.rest);
    }
    return NotParsed;
  }
}
