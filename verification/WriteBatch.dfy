/** The serialized form of a write batch (db/write_batch.cc): what `Put`, `Delete` and `Append` write, `Iterate` reads
back. */
module WriteBatches {
  import opened Common
  import opened Bytes
  import opened Coding

  datatype Op = Put(key: seq<byte>, value: seq<byte>) | Delete(key: seq<byte>)

  const TYPE_DELETION: byte := 0
  const TYPE_VALUE: byte := 1

  /** An 8-byte sequence number followed by a 4-byte count. */
  const HEADER := 12

  const MAX_COUNT := 0x7fff_ffff

  ghost predicate Encodable(op: Op) {
    |op.key| < TWO_TO_32 && (op.Put? ==> |op.value| < TWO_TO_32)
  }

  function OpBytes(op: Op): (r: seq<byte>)
    ensures r != []
  {
    match op
    case Put(k, v) => [TYPE_VALUE] + LengthPrefixed(k) + LengthPrefixed(v)
    case Delete(k) => [TYPE_DELETION] + LengthPrefixed(k)
  }

  function OpsBytes(ops: seq<Op>): seq<byte> {
    if ops == [] then [] else OpBytes(ops[0]) + OpsBytes(ops[1..])
  }

  lemma {:induction false} OpsBytesAppend(a: seq<Op>, b: seq<Op>)
    ensures OpsBytes(a + b) == OpsBytes(a) + OpsBytes(b)
  {
    if a == [] {
      assert a + b == b;
    } else {
      assert (a + b)[1..] == a[1..] + b;
      OpsBytesAppend(a[1..], b);
    }
  }

  /** The whole record of a batch. */
  function BatchBytes(sequence: nat, ops: seq<Op>): seq<byte> {
    Fixed(sequence, 8) + Fixed(|ops|, 4) + OpsBytes(ops)
  }

  ghost predicate ValidOps(sequence: nat, ops: seq<Op>) {
    sequence < TWO_TO_64 && |ops| <= MAX_COUNT && forall op :: op in ops ==> Encodable(op)
  }

  datatype Parse = Failed(message: string) | Ops(ops: seq<Op>)

  /** One record of a batch. */
  function ParseOp(input: seq<byte>): Parsed<Op>
    requires input != []
  {
    if input[0] == TYPE_VALUE then
      match ParseSlice(input[1..])
      case NotParsed => NotParsed
      case Parsed(key, rest) =>
        (match ParseSlice(rest) case NotParsed => NotParsed case Parsed(value, rest') => Parsed(Put(key, value), rest'))
    else if input[0] == TYPE_DELETION then
      match ParseSlice(input[1..])
      case NotParsed => NotParsed
      case Parsed(key, rest) => Parsed(Delete(key), rest)
    else NotParsed
  }

  lemma ParseOpShrinks(input: seq<byte>)
    requires input != []
    ensures var r := ParseOp(input); r.Parsed? ==> |r.rest| < |input|
  {
    hide ParseVarint;
    VarintShrinks(input[1..], 5);
    var key := ParseSlice(input[1..]);
    if key.Parsed? {
      VarintShrinks(key.rest, 5);
    }
  }

  lemma OpRoundTrip(op: Op, rest: seq<byte>)
    requires Encodable(op)
    ensures ParseOp(OpBytes(op) + rest) == Parsed(op, rest)
  {
    hide LengthPrefixed, ParseSlice;
    var s := OpBytes(op) + rest;
    match op
    case Put(k, v) =>
      assert s[1..] == LengthPrefixed(k) + (LengthPrefixed(v) + rest);
      SliceRoundTrip(k, LengthPrefixed(v) + rest);
      SliceRoundTrip(v, rest);
    case Delete(k) =>
      assert s[1..] == LengthPrefixed(k) + rest;
      SliceRoundTrip(k, rest);
  }

  class WriteBatch {
    var rep: seq<byte>

    /** The batch holds these operations, to be numbered from `sequence`. */
    ghost predicate Holds(sequence: nat, ops: seq<Op>)
      reads this
    {
      ValidOps(sequence, ops) && rep == BatchBytes(sequence, ops)
    }

    constructor ()
      ensures Holds(0, [])
    {
      rep := seq(HEADER, _ => 0);
      new;
      ZeroFixed(8);
      ZeroFixed(4);
      assert rep == seq(8, _ => 0) + seq(4, _ => 0);
    }

    function Count(): nat
      reads this
      requires |rep| >= HEADER
    {
      Unfixed(rep[8..12])
    }

    function Sequence(): nat
      reads this
      requires |rep| >= HEADER
    {
      Unfixed(rep[..8])
    }

    lemma HeaderIs(sequence: nat, ops: seq<Op>)
      requires Holds(sequence, ops)
      ensures |rep| >= HEADER && Count() == |ops| && Sequence() == sequence && rep[HEADER..] == OpsBytes(ops)
      ensures forall op :: op in ops ==> Encodable(op)
    {
      hide Fixed, Unfixed, Power256;
      PowersOf256();
      assert rep[..8] == Fixed(sequence, 8);
      assert rep[8..12] == Fixed(|ops|, 4);
      FixedRoundTrip(sequence, 8);
      FixedRoundTrip(|ops|, 4);
    }

    method SetCount(n: nat)
      requires |rep| >= HEADER && n < TWO_TO_32
      modifies this
      ensures rep == old(rep)[..8] + Fixed(n, 4) + old(rep)[HEADER..]
    {
      rep := rep[..8] + Fixed(n, 4) + rep[HEADER..];
    }

    method SetSequence(n: nat, ghost sequence: nat, ghost ops: seq<Op>)
      requires Holds(sequence, ops) && n < TWO_TO_64
      modifies this
      ensures Holds(n, ops)
    {
      hide Fixed, OpsBytes, Encodable;
      rep := Fixed(n, 8) + rep[8..];
    }

    method Put(key: seq<byte>, value: seq<byte>, ghost sequence: nat, ghost ops: seq<Op>)
      requires Holds(sequence, ops) && |ops| < MAX_COUNT && Encodable(Op.Put(key, value))
      modifies this
      ensures Holds(sequence, ops + [Op.Put(key, value)])
    {
      hide Fixed, Unfixed, LengthPrefixed, OpsBytes;
      HeaderIs(sequence, ops);
      SetCount(Count() + 1);
      rep := rep + [TYPE_VALUE];
      rep := PutLengthPrefixedSlice(rep, key);
      rep := PutLengthPrefixedSlice(rep, value);
      OneMore(ops, Op.Put(key, value));
    }

    method Delete(key: seq<byte>, ghost sequence: nat, ghost ops: seq<Op>)
      requires Holds(sequence, ops) && |ops| < MAX_COUNT && Encodable(Op.Delete(key))
      modifies this
      ensures Holds(sequence, ops + [Op.Delete(key)])
    {
      hide Fixed, Unfixed, LengthPrefixed, OpsBytes;
      HeaderIs(sequence, ops);
      SetCount(Count() + 1);
      rep := rep + [TYPE_DELETION];
      rep := PutLengthPrefixedSlice(rep, key);
      OneMore(ops, Op.Delete(key));
    }

    method Append(source: WriteBatch, ghost sequence: nat, ghost ops: seq<Op>, ghost sequence': nat,
                  ghost more: seq<Op>)
      requires Holds(sequence, ops) && source.Holds(sequence', more) && source != this && |ops| + |more| <= MAX_COUNT
      modifies this
      ensures Holds(sequence, ops + more)
    {
      hide Fixed, Unfixed, OpsBytes, OpBytes;
      HeaderIs(sequence, ops);
      source.HeaderIs(sequence', more);
      SetCount(Count() + source.Count());
      rep := rep + source.rep[HEADER..];
      OpsBytesAppend(ops, more);
    }

    /** Calls back with each operation in order; here they are returned.  It takes exactly the batches that are records
        and nothing else, as many as the count says. */
    method Iterate(ghost sequence: nat, ghost ops: seq<Op>) returns (r: Parse)
      ensures Holds(sequence, ops) ==> r == Ops(ops)
      ensures r.Ops? <==>
                && |rep| >= HEADER && ParseOps(rep[HEADER..]).Some?
                && |ParseOps(rep[HEADER..]).value| == Count()
      ensures r.Ops? ==> ParseOps(rep[HEADER..]) == Some(r.ops)
    {
      hide *;
      HeaderIs12();
      if Holds(sequence, ops) {
        HeaderIs(sequence, ops);
        OpsRoundTrip(ops);
      }
      if |rep| < HEADER {
        return Failed("malformed WriteBatch (too small)");
      }
      var input := rep[HEADER..];
      var found: seq<Op> := [];
      NothingFound(ParseOps(input));
      while input != []
        invariant ParseOps(rep[HEADER..]) == After(found, ParseOps(input))
        decreases |input|
      {
        ParseOpShrinks(input);
        NextOp(input);
        var op := GetOp(input);
        if op.NotParsed? {
          NoneAfter(found);
          return Failed("bad record");
        }
        OneMoreFound(found, op.value, ParseOps(op.rest));
        found := found + [op.value];
        input := op.rest;
      }
      NoMoreOps();
      AllFound(found);
      if |found| != Count() {
        return Failed("WriteBatch has wrong count");
      }
      return Ops(found);
    }
  }

  /** The operations of any bytes, if there is nothing else in them. */
  function ParseOps(input: seq<byte>): Option<seq<Op>>
    decreases |input|
  {
    if input == [] then Some([]) else
      ParseOpShrinks(input);
      match ParseOp(input) case NotParsed => None case Parsed(op, rest) => After([op], ParseOps(rest))
  }

  function After(done: seq<Op>, ops: Option<seq<Op>>): Option<seq<Op>> {
    match ops case None => None case Some(more) => Some(done + more)
  }

  lemma {:induction false} OpsRoundTrip(ops: seq<Op>)
    requires forall op :: op in ops ==> Encodable(op)
    ensures ParseOps(OpsBytes(ops)) == Some(ops)
  {
    hide Encodable, ParseOp, OpBytes;
    if ops != [] {
      OpRoundTrip(ops[0], OpsBytes(ops[1..]));
      OpsRoundTrip(ops[1..]);
      assert [ops[0]] + ops[1..] == ops;
    }
  }

  lemma NothingFound(ops: Option<seq<Op>>)
    ensures After([], ops) == ops
  {
    if ops.Some? {
      assert [] + ops.value == ops.value;
    }
  }

  lemma NoneAfter(done: seq<Op>)
    ensures After(done, None) == None
  {
  }

  lemma AllFound(done: seq<Op>)
    ensures After(done, Some([])) == Some(done)
  {
    assert done + [] == done;
  }

  lemma OneMoreFound(done: seq<Op>, op: Op, ops: Option<seq<Op>>)
    ensures After(done, After([op], ops)) == After(done + [op], ops)
  {
    if ops.Some? {
      assert done + ([op] + ops.value) == done + [op] + ops.value;
    }
  }

  lemma HeaderIs12()
    ensures HEADER == 12
  {
  }

  lemma NextOp(input: seq<byte>)
    requires input != []
    ensures ParseOps(input) ==
            match ParseOp(input) case NotParsed => None case Parsed(op, rest) => After([op], ParseOps(rest))
  {
    hide ParseOp, After;
  }

  lemma NoMoreOps()
    ensures ParseOps([]) == Some([])
  {
  }

  lemma ZeroFixed(k: nat)
    ensures Fixed(0, k) == seq(k, _ => 0)
  {
    assert ByteOf(0) == 0;
  }

  lemma OneMore(ops: seq<Op>, op: Op)
    ensures OpsBytes(ops + [op]) == OpsBytes(ops) + OpBytes(op)
  {
    OpsBytesAppend(ops, [op]);
    assert OpsBytes([op]) == OpBytes(op) + OpsBytes([]);
  }

  /** The switch of `Iterate`. */
  method GetOp(input: seq<byte>) returns (r: Parsed<Op>)
    requires input != []
    ensures r == ParseOp(input)
  {
    var tag := input[0];
    if tag == TYPE_VALUE {
      var key := GetLengthPrefixedSlice(input[1..]);
      if key.Parsed? {
        var value := GetLengthPrefixedSlice(key.rest);
        if value.Parsed? {
          return Parsed(Put(key.value, value.value), value.rest);
        }
      }
      return NotParsed;
    } else if tag == TYPE_DELETION {
      var key := GetLengthPrefixedSlice(input[1..]);
      if key.Parsed? {
        return Parsed(Delete(key.value), key.rest);
      }
      return NotParsed;
    } else {
      return NotParsed;
    }
  }
}
