/** The record log: fragments in 32 KB blocks, written by LogWriter and read by LogReader. */
module LogFormat {
  import opened DbFormat
  import opened Coding

  const BLOCK_SIZE: nat := 32768
  const HEADER_SIZE: nat := 7

  // The offset within its block; the literal keeps the arithmetic linear.
  function InBlock(offset: nat): (r: nat)
    ensures r < BLOCK_SIZE
  {
    offset % 32768
  }

  predicate BlockStart(offset: nat) {
    InBlock(offset) == 0
  }

  const ZERO_TYPE: Byte := 0
  const FULL_TYPE: Byte := 1
  const FIRST_TYPE: Byte := 2
  const MIDDLE_TYPE: Byte := 3
  const LAST_TYPE: Byte := 4

  // The checksum of a byte string; the format works for any function.
  type Checksum = Bytes -> Word

  // ----- 32-bit words -----

  const MASK_DELTA: nat := 0xa282ead8

  // Rotate right by 15 bits and add a constant, modulo 2^32.
  function Mask(crc: Word): Word {
    (crc / 0x8000 + crc % 0x8000 * 0x2_0000 + MASK_DELTA) % 0x1_0000_0000
  }

  function Unmask(masked: Word): Word {
    var rot := (masked - MASK_DELTA) % 0x1_0000_0000;
    rot / 0x2_0000 + rot % 0x2_0000 * 0x8000
  }

  lemma UnmaskInvertsMask(crc: Word)
    ensures Unmask(Mask(crc)) == crc
  {
    var rot := crc / 0x8000 + crc % 0x8000 * 0x2_0000;
    assert 0 <= rot < 0x1_0000_0000;
    assert (Mask(crc) - MASK_DELTA) % 0x1_0000_0000 == rot;
    assert rot / 0x2_0000 == crc % 0x8000 && rot % 0x2_0000 == crc / 0x8000;
  }

  // ----- physical records -----

  function Physical(crc: Checksum, t: Byte, payload: Bytes): (r: Bytes)
    requires |payload| <= 0xffff
    ensures |r| == HEADER_SIZE + |payload|
  {
    Fixed32(Mask(crc([t] + payload))) + [|payload| % 256, |payload| / 256, t] + payload
  }

  function Zeros(n: nat): (r: Bytes)
    ensures |r| == n
  {
    seq(n, _ => 0)
  }

  // Bytes left in the block that contains offset.
  function Leftover(offset: nat): nat
    requires offset <= BLOCK_SIZE
  {
    BLOCK_SIZE - offset
  }

  // The trailer that fills a block too full for a header, and where the fragment then starts.
  function Trailer(offset: nat): Bytes
    requires offset <= BLOCK_SIZE
  {
    if Leftover(offset) < HEADER_SIZE then Zeros(Leftover(offset)) else []
  }

  function FragmentStart(offset: nat): nat
    requires offset <= BLOCK_SIZE
  {
    if Leftover(offset) < HEADER_SIZE then 0 else offset
  }

  function FragmentLength(left: nat, offset: nat): nat
    requires offset <= BLOCK_SIZE
  {
    var avail := BLOCK_SIZE - FragmentStart(offset) - HEADER_SIZE;
    if left < avail then left else avail
  }

  function FragmentType(begin: bool, end: bool): Byte {
    if begin && end then FULL_TYPE else if begin then FIRST_TYPE else if end then LAST_TYPE else MIDDLE_TYPE
  }

  /** What a record adds to a file whose last block is filled up to offset. */
  function Emit(crc: Checksum, data: Bytes, offset: nat, begin: bool): Bytes
    requires offset <= BLOCK_SIZE
    decreases |data|, BLOCK_SIZE - offset
  {
    var n := FragmentLength(|data|, offset);
    var end := |data| == n;
    Trailer(offset) + Physical(crc, FragmentType(begin, end), data[..n]) +
    (if end then [] else Emit(crc, data[n..], FragmentStart(offset) + HEADER_SIZE + n, false))
  }

  lemma EmitStep(crc: Checksum, data: Bytes, offset: nat, begin: bool)
    requires offset <= BLOCK_SIZE
    ensures var n := FragmentLength(|data|, offset);
            var end := |data| == n;
            Emit(crc, data, offset, begin) ==
            Trailer(offset) + Physical(crc, FragmentType(begin, end), data[..n]) +
            (if end then [] else Emit(crc, data[n..], FragmentStart(offset) + HEADER_SIZE + n, false))
  {
  }

  // The bytes of a log holding the given records.
  function LogBytes(crc: Checksum, records: seq<Bytes>): Bytes {
    if records == [] then []
    else
      var before := LogBytes(crc, records[..|records| - 1]);
      before + Emit(crc, records[|records| - 1], InBlock(|before|), true)
  }
}

module LogWriter {
  import opened DbFormat
  import opened Coding
  import opened LogFormat

  class Writer {
    const crc: Checksum
    var dest: Bytes
    var blockOffset: nat

    ghost predicate Valid()
      reads this
    {
      blockOffset <= BLOCK_SIZE && blockOffset <= |dest| && BlockStart(|dest| - blockOffset)
    }

    // A writer on a file that already holds some bytes.
    constructor (crc: Checksum, existing: Bytes)
      ensures Valid() && dest == existing && this.crc == crc
    {
      this.crc := crc;
      dest := existing;
      blockOffset := InBlock(|existing|);
      assert |existing| - InBlock(|existing|) == |existing| / 32768 * 32768;
    }

    method AddRecord(record: Bytes)
      requires Valid()
      modifies this
      ensures Valid() && dest == old(dest) + Emit(crc, record, InBlock(|old(dest)|), true)
    {
      hide Emit, Physical, BlockStart, InBlock;
      OffsetInBlock(crc, record, |dest|, blockOffset);
      ghost var goal := dest + Emit(crc, record, blockOffset, true);
      var left := record;
      var begin := true;
      var more := true;
      while more
        invariant Valid()
        invariant more ==> dest + Emit(crc, left, blockOffset, begin) == goal
        invariant !more ==> dest == goal
        decreases more, |left|, BLOCK_SIZE - blockOffset
      {
        EmitStep(crc, left, blockOffset, begin);
        ghost var before, offset := dest, blockOffset;
        var leftover := BLOCK_SIZE - blockOffset;
        if leftover < HEADER_SIZE {
          if leftover > 0 {
            dest := dest + Zeros(leftover);
          }
          NextBlockStart(|before| - offset);
          blockOffset := 0;
        }
        assert dest == before + Trailer(offset) && blockOffset == FragmentStart(offset);
        var avail := BLOCK_SIZE - blockOffset - HEADER_SIZE;
        var fragmentLength := if |left| < avail then |left| else avail;
        var end := |left| == fragmentLength;
        var t := if begin && end then FULL_TYPE else if begin then FIRST_TYPE else if end then LAST_TYPE else MIDDLE_TYPE;
        var fragment := left[..fragmentLength];
        EmitPhysicalRecord(t, fragment);
        left := left[fragmentLength..];
        begin := false;
        more := |left| > 0;
        ghost var rest := if more then Emit(crc, left, blockOffset, false) else [];
        assert dest + rest == before + (Trailer(offset) + Physical(crc, t, fragment) + rest);
      }
    }

    method EmitPhysicalRecord(t: Byte, payload: Bytes)
      requires blockOffset + HEADER_SIZE + |payload| <= BLOCK_SIZE
      modifies this
      ensures dest == old(dest) + Physical(crc, t, payload)
      ensures blockOffset == old(blockOffset) + HEADER_SIZE + |payload|
    {
      var header := Fixed32(Mask(crc([t] + payload))) + [|payload| % 256, |payload| / 256, t];
      dest := dest + header;
      dest := dest + payload;
      blockOffset := blockOffset + HEADER_SIZE + |payload|;
    }
  }

  lemma NextBlockStart(start: nat)
    requires BlockStart(start)
    ensures BlockStart(start + BLOCK_SIZE)
  {
  }

  // What is emitted depends only on the file length modulo the block size.
  lemma OffsetInBlock(crc: Checksum, data: Bytes, length: nat, offset: nat)
    requires offset <= BLOCK_SIZE && offset <= length && BlockStart(length - offset)
    ensures Emit(crc, data, offset, true) == Emit(crc, data, InBlock(length), true)
  {
    if offset < BLOCK_SIZE {
      assert InBlock(length) == offset;
    } else {
      assert InBlock(length) == 0;
      BlockEndIsBlockStart(crc, data, true);
    }
  }

  /** Standing at the end of a full block is the same as standing at the start of the next. */
  lemma BlockEndIsBlockStart(crc: Checksum, data: Bytes, begin: bool)
    ensures Emit(crc, data, BLOCK_SIZE, begin) == Emit(crc, data, 0, begin)
  {
  }
}

module LogReader {
  import opened DbFormat
  import opened Coding
  import opened LogFormat

  datatype PhysicalResult = Eof | BadRecord | Fragment(t: Byte, data: Bytes)

  // The outcome of a read: the result, the file offset reached, and the sizes of reported drops.
  datatype Outcome<T> = Outcome(result: T, next: nat, drops: seq<nat>)

  function BlockEnd(length: nat, p: nat): nat
    requires p <= length
  {
    var e := p - InBlock(p) + BLOCK_SIZE;
    if length < e then length else e
  }

  function PayloadLength(low: Byte, high: Byte): nat {
    var a: int, b: int := low, high;
    a + b * 256
  }

  // A short block at the end of the file tells the reader that nothing follows.
  predicate AtEndOfFile(file: Bytes, e: nat) {
    e == |file| && !BlockStart(|file|)
  }

  function ChecksumMatches(crc: Checksum, buffer: Bytes, length: nat): bool
    requires HEADER_SIZE + length <= |buffer|
  {
    Unmask(DecodeFixed32(buffer[..4])) == crc(buffer[6..HEADER_SIZE + length])
  }

  // Parsing at the front of the buffered rest of a block; next counts the bytes consumed.
  function ParseBuffer(crc: Checksum, buffer: Bytes, eof: bool): (o: Outcome<PhysicalResult>)
    requires |buffer| >= HEADER_SIZE
    ensures HEADER_SIZE <= o.next <= |buffer|
  {
    var t, length := buffer[6], PayloadLength(buffer[4], buffer[5]);
    if HEADER_SIZE + length > |buffer| then
      if eof then Outcome(Eof, |buffer|, []) else Outcome(BadRecord, |buffer|, [|buffer|])
    else if t == ZERO_TYPE && length == 0 then Outcome(BadRecord, |buffer|, [])
    else if !ChecksumMatches(crc, buffer, length) then Outcome(BadRecord, |buffer|, [|buffer|])
    else Outcome(Fragment(t, buffer[HEADER_SIZE..HEADER_SIZE + length]), HEADER_SIZE + length, [])
  }

  /** What a physical read does from file offset p, whatever the reader has buffered. */
  function ReadPhysicalAt(crc: Checksum, file: Bytes, p: nat): (o: Outcome<PhysicalResult>)
    requires p <= |file|
    ensures p <= o.next <= |file| && (o.result != Eof ==> p < o.next)
    decreases |file| - p
  {
    var e := BlockEnd(|file|, p);
    if e - p < HEADER_SIZE then
      if e == |file| then Outcome(Eof, e, []) else ReadPhysicalAt(crc, file, e)
    else
      var o := ParseBuffer(crc, file[p..e], AtEndOfFile(file, e));
      o.(next := p + o.next)
  }

  // One turn of the loop in ReadRecord: it ends, or goes on with a new partial record.
  datatype Turn = Done(result: Option<Bytes>, drops: seq<nat>) | GoOn(inFragment: bool, scratch: Bytes, drops: seq<nat>)

  function RecordTurn(phys: PhysicalResult, inFragment: bool, scratch: Bytes): Turn {
    match phys
    case Eof => Done(None, [])
    case BadRecord => if inFragment then GoOn(false, [], [|scratch|]) else GoOn(false, scratch, [])
    case Fragment(t, data) =>
      var partial := if inFragment && scratch != [] then [|scratch|] else [];
      if t == FULL_TYPE then Done(Some(data), partial)
      else if t == FIRST_TYPE then GoOn(true, data, partial)
      else if t == MIDDLE_TYPE then
        if inFragment then GoOn(true, scratch + data, []) else GoOn(false, scratch, [|data|])
      else if t == LAST_TYPE then
        if inFragment then Done(Some(scratch + data), []) else GoOn(false, scratch, [|data|])
      else GoOn(false, [], [|data| + (if inFragment then |scratch| else 0)])
  }

  /** Assembling a logical record from offset p on. */
  function ReadRecordAt(crc: Checksum, file: Bytes, p: nat, inFragment: bool, scratch: Bytes): (o: Outcome<Option<Bytes>>)
    requires p <= |file|
    ensures p <= o.next <= |file| && (o.result.Some? ==> p < o.next)
    decreases |file| - p
  {
    var phys := ReadPhysicalAt(crc, file, p);
    match RecordTurn(phys.result, inFragment, scratch)
    case Done(result, drops) => Outcome(result, phys.next, phys.drops + drops)
    case GoOn(inFragment', scratch', drops) =>
      var o := ReadRecordAt(crc, file, phys.next, inFragment', scratch');
      o.(drops := phys.drops + drops + o.drops)
  }

  // All records from offset p on, and everything reported on the way.
  function ReadAll(crc: Checksum, file: Bytes, p: nat): (seq<Bytes>, seq<nat>)
    requires p <= |file|
    decreases |file| - p
  {
    var o := ReadRecordAt(crc, file, p, false, []);
    match o.result
    case None => ([], o.drops)
    case Some(record) =>
      var (rest, drops) := ReadAll(crc, file, o.next);
      ([record] + rest, o.drops + drops)
  }

  method Parse(crc: Checksum, buffer: Bytes, eof: bool) returns (r: PhysicalResult, consumed: nat, dropped: seq<nat>)
    requires |buffer| >= HEADER_SIZE
    ensures ParseBuffer(crc, buffer, eof) == Outcome(r, consumed, dropped)
  {
    hide ChecksumMatches, PayloadLength;
    var t, length := buffer[6], PayloadLength(buffer[4], buffer[5]);
    consumed, dropped := |buffer|, [];
    if HEADER_SIZE + length > |buffer| {
      r := if eof then Eof else BadRecord;
      dropped := if eof then [] else [|buffer|];
    } else if t == ZERO_TYPE && length == 0 {
      r := BadRecord;
    } else if !ChecksumMatches(crc, buffer, length) {
      r := BadRecord;
      dropped := [|buffer|];
    } else {
      r := Fragment(t, buffer[HEADER_SIZE..HEADER_SIZE + length]);
      consumed := HEADER_SIZE + length;
    }
  }

  // The buffer holds the unread rest of the last block read, which ends at filePos.
  ghost predicate Buffered(file: Bytes, filePos: nat, buffer: Bytes, eof: bool)
    requires |buffer| <= filePos
  {
    && filePos <= |file| && buffer == file[filePos - |buffer|..filePos]
    && (!eof ==> BlockStart(filePos))
    && (eof ==> filePos == |file|)
    && (buffer != [] ==> filePos == BlockEnd(|file|, filePos - |buffer|) && (eof <==> AtEndOfFile(file, filePos)))
  }

  // The number of bytes the next read of a block returns.
  function BlockLength(length: nat, filePos: nat): nat
    requires filePos <= length
  {
    if length - filePos < BLOCK_SIZE then length - filePos else BLOCK_SIZE
  }

  class Reader {
    const crc: Checksum
    const file: Bytes
    var filePos: nat
    var buffer: Bytes
    var eof: bool
    var drops: seq<nat>

    ghost predicate Valid()
      reads this
    {
      |buffer| <= filePos <= |file| && Buffered(file, filePos, buffer, eof)
    }

    // The offset of the first byte not yet consumed.
    ghost function Position(): nat
      reads this
      requires |buffer| <= filePos
    {
      filePos - |buffer|
    }

    constructor (crc: Checksum, file: Bytes)
      ensures Valid() && Position() == 0 && drops == [] && this.crc == crc && this.file == file
    {
      this.crc, this.file := crc, file;
      filePos, buffer, eof, drops := 0, [], false, [];
    }

    // Reads blocks until a header is buffered; false at the end of the file.
    method FillBuffer() returns (more: bool)
      requires Valid()
      modifies this
      ensures Valid() && drops == old(drops)
      ensures ReadPhysicalAt(crc, file, Position()) == ReadPhysicalAt(crc, file, old(Position()))
      ensures more ==> |buffer| >= HEADER_SIZE
      ensures !more ==> ReadPhysicalAt(crc, file, Position()) == Outcome(Eof, Position(), [])
    {
      hide Buffered, ReadPhysicalAt;
      while |buffer| < HEADER_SIZE
        invariant Valid() && drops == old(drops)
        invariant ReadPhysicalAt(crc, file, Position()) == ReadPhysicalAt(crc, file, old(Position()))
        decreases !eof, |file| - filePos
      {
        Refilled(crc, file, filePos, buffer, eof);
        if !eof {
          var n := BlockLength(|file|, filePos);
          buffer := file[filePos..filePos + n];
          filePos := filePos + n;
          if |buffer| < BLOCK_SIZE {
            eof := true;
          }
        } else {
          buffer := [];
          return false;
        }
      }
      more := true;
    }

    method ReadPhysicalRecord() returns (r: PhysicalResult)
      requires Valid()
      modifies this
      ensures Valid()
      ensures var o := ReadPhysicalAt(crc, file, old(Position()));
              r == o.result && Position() == o.next && drops == old(drops) + o.drops
    {
      hide Buffered, ReadPhysicalAt, ParseBuffer;
      var more := FillBuffer();
      if !more {
        return Eof;
      }
      Consumed(crc, file, filePos, buffer, eof);
      var consumed, dropped;
      r, consumed, dropped := Parse(crc, buffer, eof);
      buffer := buffer[consumed..];
      drops := drops + dropped;
    }

    /** ReadRecord over any file contents: the buffered machine is the offset-based reading. */
    method ReadRecord() returns (record: Option<Bytes>)
      requires Valid()
      modifies this
      ensures Valid()
      ensures var o := ReadRecordAt(crc, file, old(Position()), false, []);
              record == o.result && Position() == o.next && drops == old(drops) + o.drops
    {
      hide ReadPhysicalAt, ReadRecordAt, BlockEnd, AtEndOfFile;
      var scratch, inFragment := [], false;
      ghost var goal := ReadRecordAt(crc, file, Position(), false, []);
      while true
        invariant Valid()
        invariant var o := ReadRecordAt(crc, file, Position(), inFragment, scratch);
                  o.result == goal.result && o.next == goal.next && drops + o.drops == old(drops) + goal.drops
        decreases |file| - Position()
      {
        RecordStep(crc, file, Position(), inFragment, scratch);
        ghost var before, p := drops, Position();
        var phys := ReadPhysicalRecord();
        ghost var turn := RecordTurn(phys, inFragment, scratch);
        var report, done := [], None;
        match phys {
          case Fragment(t, data) =>
            if t == FULL_TYPE {
              if inFragment && scratch != [] {
                report := [|scratch|];
              }
              done := Some(Some(data));
            } else if t == FIRST_TYPE {
              if inFragment && scratch != [] {
                report := [|scratch|];
              }
              scratch, inFragment := data, true;
            } else if t == MIDDLE_TYPE {
              if !inFragment {
                report := [|data|];
              } else {
                scratch := scratch + data;
              }
            } else if t == LAST_TYPE {
              if !inFragment {
                report := [|data|];
              } else {
                done := Some(Some(scratch + data));
              }
            } else {
              report := [|data| + (if inFragment then |scratch| else 0)];
              scratch, inFragment := [], false;
            }
          case Eof =>
            done := Some(None);
          case BadRecord =>
            if inFragment {
              report := [|scratch|];
              scratch, inFragment := [], false;
            }
        }
        assert turn == match done case Some(result) => Done(result, report) case None => GoOn(inFragment, scratch, report);
        ghost var physDrops := ReadPhysicalAt(crc, file, p).drops;
        drops := drops + report;
        if done.Some? {
          assert drops == before + (physDrops + report);
          return done.value;
        }
        ghost var rest := ReadRecordAt(crc, file, Position(), inFragment, scratch).drops;
        assert drops + rest == before + (physDrops + report + rest);
      }
    }
  }

  // Dropping a rest too short for a header and reading on changes no outcome.
  lemma Refilled(crc: Checksum, file: Bytes, filePos: nat, buffer: Bytes, eof: bool)
    requires |buffer| <= filePos && Buffered(file, filePos, buffer, eof) && |buffer| < HEADER_SIZE
    ensures filePos <= |file|
    ensures ReadPhysicalAt(crc, file, filePos - |buffer|) == ReadPhysicalAt(crc, file, filePos)
    ensures Buffered(file, filePos, [], eof)
    ensures eof ==> ReadPhysicalAt(crc, file, filePos) == Outcome(Eof, filePos, [])
    ensures !eof ==> var n := BlockLength(|file|, filePos);
                     Buffered(file, filePos + n, file[filePos..filePos + n], n < BLOCK_SIZE)
  {
    EndOfFileRead(crc, file);
    if !eof {
      NextBlockBuffered(file, filePos);
    }
    hide BlockStart, ParseBuffer, BlockEnd;
  }

  lemma EndOfFileRead(crc: Checksum, file: Bytes)
    ensures ReadPhysicalAt(crc, file, |file|) == Outcome(Eof, |file|, [])
  {
    hide ParseBuffer;
    assert BlockEnd(|file|, |file|) == |file|;
  }

  lemma NextBlockBuffered(file: Bytes, filePos: nat)
    requires filePos <= |file| && BlockStart(filePos)
    ensures var n := BlockLength(|file|, filePos);
            Buffered(file, filePos + n, file[filePos..filePos + n], n < BLOCK_SIZE)
  {
    assert BlockEnd(|file|, filePos) == filePos + BlockLength(|file|, filePos);
  }

  // Parsing the buffer and dropping what it consumed.
  lemma Consumed(crc: Checksum, file: Bytes, filePos: nat, buffer: Bytes, eof: bool)
    requires HEADER_SIZE <= |buffer| <= filePos && Buffered(file, filePos, buffer, eof)
    ensures filePos <= |file|
    ensures var o := ParseBuffer(crc, buffer, eof);
            && ReadPhysicalAt(crc, file, filePos - |buffer|) == o.(next := filePos - |buffer| + o.next)
            && Buffered(file, filePos, buffer[o.next..], eof)
  {
    var p := filePos - |buffer|;
    hide ParseBuffer;
    var n := ParseBuffer(crc, buffer, eof).next;
    assert buffer[n..] == file[p + n..filePos];
    if n < |buffer| {
      SameBlock(|file|, p, n);
    }
  }

  lemma SameBlock(length: nat, p: nat, n: nat)
    requires p <= length && p + n < BlockEnd(length, p)
    ensures BlockEnd(length, p + n) == BlockEnd(length, p)
  {
  }

  lemma RecordStep(crc: Checksum, file: Bytes, p: nat, inFragment: bool, scratch: Bytes)
    requires p <= |file|
    ensures var phys := ReadPhysicalAt(crc, file, p);
            ReadRecordAt(crc, file, p, inFragment, scratch) ==
            match RecordTurn(phys.result, inFragment, scratch)
            case Done(result, drops) => Outcome(result, phys.next, phys.drops + drops)
            case GoOn(inFragment', scratch', drops) =>
              var o := ReadRecordAt(crc, file, phys.next, inFragment', scratch');
              o.(drops := phys.drops + drops + o.drops)
  {
  }
}
