/** The byte form of a write batch, which is also the form of a record of the log. */
module WriteBatch {
  import opened DbFormat
  import opened Coding

  const HEADER: nat := 12
  const MAX_COUNT: nat := 0x7fff_ffff

  datatype BatchOp = Put(key: Bytes, value: Bytes) | Delete(key: Bytes) {
    // Lengths are written as 32-bit numbers.
    predicate Fits() {
      |key| < 0x1_0000_0000 && (Put? ==> |value| < 0x1_0000_0000)
    }

    function KindByte(): Byte {
      if Put? then 1 else 0
    }
  }

  ghost predicate AllFit(ops: seq<BatchOp>) {
    |ops| <= MAX_COUNT && forall i :: 0 <= i < |ops| ==> ops[i].Fits()
  }

  function EncodeOp(op: BatchOp): Bytes {
    [op.KindByte()] + LengthPrefixed(op.key) + if op.Put? then LengthPrefixed(op.value) else []
  }

  function EncodeOps(ops: seq<BatchOp>): Bytes {
    if ops == [] then [] else EncodeOp(ops[0]) + EncodeOps(ops[1..])
  }

  // The representation of a batch whose first operation has number first.
  function Rep(first: Word64, ops: seq<BatchOp>): Bytes
    requires |ops| <= MAX_COUNT
  {
    Fixed64(first) + Fixed32(|ops|) + EncodeOps(ops)
  }

  function SequenceOf(rep: Bytes): Word64
    requires |rep| >= HEADER
  {
    DecodeFixed64(rep)
  }

  // An unsigned word read into a signed int.
  function CountOf(rep: Bytes): int
    requires |rep| >= HEADER
  {
    var w := DecodeFixed32(rep[8..]);
    if w <= MAX_COUNT then w else w - 0x1_0000_0000
  }

  // ----- reading it back -----

  datatype BatchStatus = Ok | TooSmall | BadPut | BadDelete | UnknownTag | WrongCount

  datatype ParsedOp = Op(op: BatchOp, rest: Bytes) | Fail(status: BatchStatus)

  function ParseOp(input: Bytes): (r: ParsedOp)
    requires input != []
    ensures r.Op? ==> |r.rest| < |input|
    ensures r.Fail? ==> r.status != Ok
  {
    var tag, body := input[0], input[1..];
    if tag == 1 then
      match TakeString(body)
      case None => Fail(BadPut)
      case Some((key, b)) =>
        match TakeString(b)
        case None => Fail(BadPut)
        case Some((value, rest)) => Op(Put(key, value), rest)
    else if tag == 0 then
      match TakeString(body)
      case None => Fail(BadDelete)
      case Some((key, rest)) => Op(Delete(key), rest)
    else Fail(UnknownTag)
  }

  function ParseOps(input: Bytes): (seq<BatchOp>, BatchStatus)
    decreases |input|
  {
    if input == [] then ([], Ok)
    else
      match ParseOp(input)
      case Fail(status) => ([], status)
      case Op(op, rest) => var (ops, status) := ParseOps(rest); ([op] + ops, status)
  }

  // The calls that a handler gets, and what is said about the batch in the end.
  function Iterated(rep: Bytes): (seq<BatchOp>, BatchStatus) {
    if |rep| < HEADER then ([], TooSmall)
    else
      var (ops, status) := ParseOps(rep[HEADER..]);
      (ops, if status != Ok then status else if |ops| != CountOf(rep) then WrongCount else Ok)
  }

  // ----- round trip -----

  lemma OpRoundTrip(op: BatchOp, rest: Bytes)
    requires op.Fits()
    ensures ParseOp(EncodeOp(op) + rest) == Op(op, rest)
  {
    hide TakeString, LengthPrefixed;
    var after := if op.Put? then LengthPrefixed(op.value) + rest else rest;
    assert (EncodeOp(op) + rest)[1..] == LengthPrefixed(op.key) + after;
    StringTaken(op.key, after);
    if op.Put? {
      StringTaken(op.value, rest);
    }
  }

  lemma {:induction false} OpsRoundTrip(ops: seq<BatchOp>, rest: Bytes)
    requires AllFit(ops)
    ensures ParseOps(EncodeOps(ops) + rest) == (ops + ParseOps(rest).0, ParseOps(rest).1)
  {
    hide EncodeOp, ParseOp;
    if ops == [] {
      assert EncodeOps(ops) + rest == rest && ops + ParseOps(rest).0 == ParseOps(rest).0;
    } else {
      var tail := EncodeOps(ops[1..]) + rest;
      assert EncodeOps(ops) + rest == EncodeOp(ops[0]) + tail;
      OpRoundTrip(ops[0], tail);
      OpsRoundTrip(ops[1..], rest);
      OpNotEmpty(ops[0]);
      assert [ops[0]] + (ops[1..] + ParseOps(rest).0) == ops + ParseOps(rest).0;
    }
  }

  lemma OpNotEmpty(op: BatchOp)
    ensures EncodeOp(op) != []
  {
  }

  lemma HeaderRoundTrip(first: Word64, count: nat, body: Bytes)
    requires count <= MAX_COUNT
    ensures var rep := Fixed64(first) + Fixed32(count) + body;
            |rep| >= HEADER && SequenceOf(rep) == first && CountOf(rep) == count && rep[HEADER..] == body
  {
    var rep := Fixed64(first) + Fixed32(count) + body;
    Fixed64RoundTrip(first);
    Fixed32RoundTrip(count);
    assert rep[..4] == Fixed64(first)[..4] && rep[4..8] == Fixed64(first)[4..8];
    assert rep[8..][..4] == Fixed32(count);
    hide Fixed64;
  }

  /** A batch is read back as what was put into it, in order. */
  lemma BatchRoundTrip(first: Word64, ops: seq<BatchOp>)
    requires AllFit(ops)
    ensures |Rep(first, ops)| >= HEADER && SequenceOf(Rep(first, ops)) == first && CountOf(Rep(first, ops)) == |ops|
    ensures Iterated(Rep(first, ops)) == (ops, Ok)
  {
    hide EncodeOps, ParseOps, SequenceOf, CountOf;
    HeaderRoundTrip(first, |ops|, EncodeOps(ops));
    OpsRoundTrip(ops, []);
    NothingParsed();
    assert EncodeOps(ops) + [] == EncodeOps(ops) && ops + [] == ops;
  }

  lemma NothingParsed()
    ensures ParseOps([]) == ([], Ok)
  {
  }

  // ----- batches that are cut off -----

  lemma CutOpFails(op: BatchOp, n: nat)
    requires op.Fits() && 0 < n < |EncodeOp(op)|
    ensures ParseOp(EncodeOp(op)[..n]) == Fail(if op.Put? then BadPut else BadDelete)
  {
    hide TakeString, LengthPrefixed;
    var key := LengthPrefixed(op.key);
    var body := EncodeOp(op)[..n][1..];
    if n - 1 < |key| {
      assert body == key[..n - 1];
      CutStringNotTaken(op.key, n - 1);
    } else {
      var value := LengthPrefixed(op.value);
      assert body == key + value[..n - 1 - |key|];
      StringTaken(op.key, value[..n - 1 - |key|]);
      CutStringNotTaken(op.value, n - 1 - |key|);
    }
  }

  lemma {:induction false} CutOps(ops: seq<BatchOp>, n: nat)
    requires AllFit(ops) && n < |EncodeOps(ops)|
    ensures var (got, status) := ParseOps(EncodeOps(ops)[..n]);
            got <= ops && |got| < |ops|
  {
    hide EncodeOp, ParseOp;
    var head, tail := EncodeOp(ops[0]), EncodeOps(ops[1..]);
    var cut := (head + tail)[..n];
    if 0 < n < |head| {
      assert cut == head[..n];
      CutOpFails(ops[0], n);
    } else if n > 0 {
      assert cut == head + tail[..n - |head|];
      OpNotEmpty(ops[0]);
      OpRoundTrip(ops[0], tail[..n - |head|]);
      CutOps(ops[1..], n - |head|);
    }
  }

  /** No batch that lost its end is accepted, and the handler gets only operations of it. */
  lemma CutBatchRejected(first: Word64, ops: seq<BatchOp>, n: nat)
    requires AllFit(ops) && n < |Rep(first, ops)|
    ensures var (got, status) := Iterated(Rep(first, ops)[..n]);
            status != Ok && got <= ops
  {
    hide EncodeOps, ParseOps;
    if n >= HEADER {
      var cut := EncodeOps(ops)[..n - HEADER];
      assert Rep(first, ops)[..n] == Fixed64(first) + Fixed32(|ops|) + cut;
      HeaderRoundTrip(first, |ops|, cut);
      CutOps(ops, n - HEADER);
    }
  }

  /** The handler gets the operations up to what is wrong: a count that is not theirs, or an
      operation that is neither a put nor a deletion. */
  lemma BatchErrors(first: Word64, count: nat, ops: seq<BatchOp>, tag: Byte, rest: Bytes)
    requires AllFit(ops) && count <= MAX_COUNT
    ensures Iterated(Fixed64(first) + Fixed32(count) + EncodeOps(ops)) == (ops, if count == |ops| then Ok else WrongCount)
    ensures tag > 1 ==> Iterated(Fixed64(first) + Fixed32(count) + (EncodeOps(ops) + ([tag] + rest))) == (ops, UnknownTag)
  {
    UnknownParsed(tag, rest);
    NothingParsed();
    hide EncodeOps, ParseOps, SequenceOf, CountOf, Fixed64, Fixed32;
    HeaderRoundTrip(first, count, EncodeOps(ops));
    HeaderRoundTrip(first, count, EncodeOps(ops) + ([tag] + rest));
    OpsRoundTrip(ops, []);
    OpsRoundTrip(ops, [tag] + rest);
    assert EncodeOps(ops) + [] == EncodeOps(ops) && ops + [] == ops;
  }

  lemma UnknownParsed(tag: Byte, rest: Bytes)
    ensures tag > 1 ==> ParseOps([tag] + rest) == ([], UnknownTag)
  {
  }

  // ----- what an insertion adds to the memtable -----

  // A call of MemTable::Add.
  datatype Added = Added(sequence: Word64, op: BatchOp)

  // Sequence numbers are 64-bit words.
  function Numbered(first: Word64, ops: seq<BatchOp>): (r: seq<Added>)
    ensures |r| == |ops|
  {
    seq(|ops|, i requires 0 <= i < |ops| => Added((first + i) % 0x1_0000_0000_0000_0000, ops[i]))
  }

  class Batch {
    var rep: Bytes
    ghost var first: Word64
    ghost var ops: seq<BatchOp>

    // The representation is that of the operations put so far.
    ghost predicate Valid()
      reads this
    {
      AllFit(ops) && rep == Rep(first, ops)
    }

    constructor ()
      ensures Valid() && ops == [] && first == 0
    {
      rep := [0, 0, 0, 0, 0, 0, 0, 0, 0, 0, 0, 0];
      first, ops := 0, [];
    }

    function Count(): int
      reads this
      requires |rep| >= HEADER
    {
      CountOf(rep)
    }

    method SetCount(n: nat)
      requires |rep| >= HEADER && n <= MAX_COUNT
      modifies this`rep
      ensures rep == old(rep[..8]) + Fixed32(n) + old(rep[HEADER..])
    {
      rep := rep[..8] + Fixed32(n) + rep[HEADER..];
    }

    method SetSequence(sequence: Word64)
      requires Valid()
      modifies this
      ensures Valid() && ops == old(ops) && first == sequence
    {
      HeaderRoundTrip(first, |ops|, EncodeOps(ops));
      rep := Fixed64(sequence) + rep[8..];
      first := sequence;
      assert rep == Fixed64(first) + Fixed32(|ops|) + EncodeOps(ops);
    }

    method Put(key: Bytes, value: Bytes)
      requires Valid() && |ops| < MAX_COUNT && BatchOp.Put(key, value).Fits()
      modifies this
      ensures Valid() && ops == old(ops) + [BatchOp.Put(key, value)] && first == old(first)
    {
      hide LengthPrefixed, Rep, CountOf;
      ghost var op := BatchOp.Put(key, value);
      CountHeld(first, ops);
      SetCount(Count() + 1);
      rep := rep + [1];
      rep := rep + LengthPrefixed(key);
      rep := rep + LengthPrefixed(value);
      RepGrows(first, ops, [op]);
      OneOp(op);
      ops := ops + [op];
    }

    method Delete(key: Bytes)
      requires Valid() && |ops| < MAX_COUNT && BatchOp.Delete(key).Fits()
      modifies this
      ensures Valid() && ops == old(ops) + [BatchOp.Delete(key)] && first == old(first)
    {
      hide LengthPrefixed, Rep, CountOf;
      ghost var op := BatchOp.Delete(key);
      CountHeld(first, ops);
      SetCount(Count() + 1);
      rep := rep + [0];
      rep := rep + LengthPrefixed(key);
      RepGrows(first, ops, [op]);
      OneOp(op);
      ops := ops + [op];
    }

    /** All operations of source after those already there; the sequence number stays. */
    method Append(source: Batch)
      requires Valid() && source.Valid() && |ops| + |source.ops| <= MAX_COUNT
      modifies this
      ensures Valid() && ops == old(ops) + old(source.ops) && first == old(first)
    {
      hide Rep, CountOf, EncodeOps;
      ghost var more := source.ops;
      CountHeld(first, ops);
      CountHeld(source.first, more);
      var tail := source.rep[HEADER..];
      SetCount(Count() + source.Count());
      rep := rep + tail;
      RepGrows(first, ops, more);
      ops := ops + more;
    }

    /** Hands the operations to a handler, whatever the bytes are. */
    method Iterate() returns (calls: seq<BatchOp>, status: BatchStatus)
      ensures (calls, status) == Iterated(rep)
    {
      hide ParseOp, CountOf;
      calls := [];
      if |rep| < HEADER {
        return calls, TooSmall;
      }
      var input := rep[HEADER..];
      ghost var all := ParseOps(input);
      var found := 0;
      assert [] + all.0 == all.0;
      while input != []
        invariant found == |calls|
        invariant all == (calls + ParseOps(input).0, ParseOps(input).1)
        decreases |input|
      {
        match ParseOp(input) {
          case Fail(s) =>
            assert calls + [] == calls;
            return calls, s;
          case Op(op, rest) =>
            assert calls + ([op] + ParseOps(rest).0) == calls + [op] + ParseOps(rest).0;
            found := found + 1;
            calls := calls + [op];
            input := rest;
        }
      }
      assert calls + [] == calls;
      status := if found != CountOf(rep) then WrongCount else Ok;
    }

    /** Replays the batch into a memtable under consecutive sequence numbers; on an error the
        operations before it have been added. */
    method InsertInto() returns (adds: seq<Added>, status: BatchStatus)
      requires |rep| >= HEADER
      ensures adds == Numbered(SequenceOf(rep), Iterated(rep).0) && status == Iterated(rep).1
    {
      hide SequenceOf, Iterated;
      var calls;
      calls, status := Iterate();
      var sequence: int := SequenceOf(rep);
      adds := [];
      for i := 0 to |calls|
        invariant |adds| == i && sequence == (SequenceOf(rep) + i) % 0x1_0000_0000_0000_0000
        invariant adds == Numbered(SequenceOf(rep), calls)[..i]
      {
        adds := adds + [Added(sequence, calls[i])];
        sequence := (sequence + 1) % 0x1_0000_0000_0000_0000;
      }
    }
  }

  lemma CountHeld(first: Word64, ops: seq<BatchOp>)
    requires |ops| <= MAX_COUNT
    ensures |Rep(first, ops)| >= HEADER && CountOf(Rep(first, ops)) == |ops|
    ensures Rep(first, ops)[..8] == Fixed64(first) && Rep(first, ops)[HEADER..] == EncodeOps(ops)
  {
    HeaderRoundTrip(first, |ops|, EncodeOps(ops));
    assert |Fixed64(first)| == 8;
  }

  lemma RepGrows(first: Word64, ops: seq<BatchOp>, more: seq<BatchOp>)
    requires |ops + more| <= MAX_COUNT
    ensures Rep(first, ops + more) == Fixed64(first) + Fixed32(|ops| + |more|) + EncodeOps(ops) + EncodeOps(more)
  {
    EncodedConcat(ops, more);
    hide EncodeOps;
  }

  lemma OneOp(op: BatchOp)
    ensures EncodeOps([op]) == EncodeOp(op)
  {
    assert [op][1..] == [];
    hide EncodeOp;
    assert EncodeOps([]) == [];
  }

  lemma {:induction false} EncodedConcat(a: seq<BatchOp>, b: seq<BatchOp>)
    ensures EncodeOps(a + b) == EncodeOps(a) + EncodeOps(b)
  {
    hide EncodeOp;
    if a == [] {
      assert a + b == b;
    } else {
      assert (a + b)[1..] == a[1..] + b;
      EncodedConcat(a[1..], b);
    }
  }
}
