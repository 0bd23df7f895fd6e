/** The bytes of the file and message formats, spelled out: what another program would have to read
    and write. */
module Formats {
  import opened DbFormat
  import opened Coding
  import LogFormat
  import LogWriter
  import WriteBatch
  import EditCodec
  import Comparator
  import TableFormat
  import BlockFormat
  import FilterBlock
  import Bloom
  import PbFormat
  import PbDecode

  // ----- words and varints -----

  lemma LittleEndian(w: Word, v: Word64)
    ensures Fixed32(w) == [w % 256, w / 0x100 % 256, w / 0x1_0000 % 256, w / 0x100_0000 % 256]
    ensures Fixed64(v) == Fixed32(v % 0x1_0000_0000) + Fixed32(v / 0x1_0000_0000)
  {
  }

  /** The base-128 digits of a number, least significant first, with the top bit set in all but the
      last byte. */
  lemma VarintBytes(v: nat)
    ensures PbDecode.IsVarint(Varint(v)) && PbDecode.Digits(Varint(v)) == v
    ensures Varint(0) == [0] && Varint(127) == [127] && Varint(300) == [172, 2]
  {
    PbDecode.VarintDigits(v);
    VarintStep(300);
    VarintStep(2);
  }

  // ----- the log -----

  lemma FragmentCodes()
    ensures LogFormat.FragmentType(true, true) == 1 && LogFormat.FragmentType(true, false) == 2
    ensures LogFormat.FragmentType(false, false) == 3 && LogFormat.FragmentType(false, true) == 4
    ensures LogFormat.BLOCK_SIZE == 32768 && LogFormat.HEADER_SIZE == 7
    ensures LogFormat.Mask(0) == 0xa282_ead8 && LogFormat.Mask(1) == 0xa284_ead8 && LogFormat.Mask(0x8000) == 0xa282_ead9
  {
  }

  /** A short record in an empty file: the masked checksum of type and data, the length, the type 1,
      and the data. */
  lemma RecordBytes(crc: LogFormat.Checksum, data: Bytes)
    requires |data| < 100
    ensures LogFormat.LogBytes(crc, [data]) ==
            Fixed32(LogFormat.Mask(crc([1] + data))) + [|data|, 0, 1] + data
  {
    hide Fixed32, LogFormat.Mask;
    assert [data][..0] == [] && LogFormat.LogBytes(crc, []) == [];
    LogFormat.EmitStep(crc, data, 0, true);
    assert data[..|data|] == data;
    assert LogFormat.LogBytes(crc, [data]) == [] + LogFormat.Emit(crc, data, 0, true);
  }

  /** A fragment: the masked checksum of type and data, the length in two bytes, the type, the data. */
  lemma FragmentBytes(crc: LogFormat.Checksum, t: Byte, data: Bytes)
    requires |data| <= 0xffff
    ensures LogFormat.Physical(crc, t, data) ==
            Fixed32(LogFormat.Mask(crc([t] + data))) + [|data| % 256, |data| / 256, t] + data
  {
  }

  /** Where a record is cut: never if it fits behind one header into its block, otherwise at the end
      of the block, and again after every full block; fewer than seven bytes at the end of a block
      are zeros. */
  lemma RecordCut(crc: LogFormat.Checksum, data: Bytes, offset: nat)
    requires offset <= 32768
    ensures var room := 32768 - offset - 7;
            LogFormat.Emit(crc, data, offset, true) ==
              if room < 0 then LogFormat.Zeros(32768 - offset) + LogFormat.Emit(crc, data, 0, true)
              else if |data| <= room then LogFormat.Physical(crc, 1, data)
              else LogFormat.Physical(crc, 2, data[..room]) + LogFormat.Emit(crc, data[room..], 0, false)
  {
    hide LogFormat.Physical, LogFormat.Emit;
    LogFormat.EmitStep(crc, data, offset, true);
    if offset > 32761 {
      LogFormat.EmitStep(crc, data, 0, true);
    } else {
      FragmentFits(crc, data, offset, true);
    }
  }

  lemma RestCut(crc: LogFormat.Checksum, data: Bytes)
    ensures LogFormat.Emit(crc, data, 0, false) ==
              if |data| <= 32761 then LogFormat.Physical(crc, 4, data)
              else LogFormat.Physical(crc, 3, data[..32761]) + LogFormat.Emit(crc, data[32761..], 0, false)
  {
    hide LogFormat.Physical, LogFormat.Emit;
    FragmentFits(crc, data, 0, false);
  }

  lemma FragmentFits(crc: LogFormat.Checksum, data: Bytes, offset: nat, begin: bool)
    requires offset <= 32761
    ensures var room := 32761 - offset;
            LogFormat.Emit(crc, data, offset, begin) ==
              if |data| <= room then LogFormat.Physical(crc, LogFormat.FragmentType(begin, true), data)
              else LogFormat.Physical(crc, LogFormat.FragmentType(begin, false), data[..room]) + LogFormat.Emit(crc, data[room..], 0, false)
  {
    var room := 32761 - offset;
    assert LogFormat.Trailer(offset) == [] && LogFormat.FragmentStart(offset) == offset;
    assert LogFormat.FragmentLength(|data|, offset) == if |data| <= room then |data| else room;
    hide *;
    LogFormat.EmitStep(crc, data, offset, begin);
    if |data| <= room {
      var p := LogFormat.Physical(crc, LogFormat.FragmentType(begin, true), data);
      assert data[..|data|] == data && [] + p + [] == p;
    } else {
      LogWriter.BlockEndIsBlockStart(crc, data[room..], false);
      var p := LogFormat.Physical(crc, LogFormat.FragmentType(begin, false), data[..room]);
      assert [] + p == p;
    }
  }

  // ----- batches, edits, keys, tables -----

  /** An operation of a batch: 1 for a put and 0 for a deletion, then the key and for a put the
      value, with their lengths. */
  lemma OpBytes(key: Bytes, value: Bytes)
    ensures WriteBatch.EncodeOp(WriteBatch.Put(key, value)) == [1] + (Varint(|key|) + key) + (Varint(|value|) + value)
    ensures WriteBatch.EncodeOp(WriteBatch.Delete(key)) == [0] + (Varint(|key|) + key)
  {
    hide Varint;
  }

  /** A batch: its sequence number, the count, and the operations. */
  lemma BatchBytes(first: Word64, a: WriteBatch.BatchOp, b: WriteBatch.BatchOp)
    ensures WriteBatch.Rep(first, [a, b]) == Fixed64(first) + [2, 0, 0, 0] + (WriteBatch.EncodeOp(a) + WriteBatch.EncodeOp(b))
  {
    assert Fixed32(2) == [2, 0, 0, 0];
    hide Fixed64, Fixed32, WriteBatch.EncodeOp;
    assert [a, b][1..] == [b] && [b][1..] == [];
    assert WriteBatch.EncodeOps([]) == [];
    assert WriteBatch.EncodeOps([b]) == WriteBatch.EncodeOp(b) + [];
  }

  /** The tag of every field of a version edit; 8 is not used any more. */
  lemma NumberFieldBytes(n: Word64)
    ensures EditCodec.Encode(EditCodec.LogNumber(n)) == [2] + Varint(n)
    ensures EditCodec.Encode(EditCodec.NextFileNumber(n)) == [3] + Varint(n)
    ensures EditCodec.Encode(EditCodec.LastSequence(n)) == [4] + Varint(n)
    ensures EditCodec.Encode(EditCodec.PrevLogNumber(n)) == [9] + Varint(n)
  {
    hide Varint;
  }

  lemma NameFieldBytes(name: Bytes, level: nat)
    ensures EditCodec.Encode(EditCodec.Comparator(name)) == [1] + LengthPrefixed(name)
    ensures EditCodec.Encode(EditCodec.CompactPointer(level, name)) == [5] + (Varint(level) + LengthPrefixed(name))
  {
    hide Varint, LengthPrefixed;
  }

  lemma FileFieldBytes(level: nat, n: Word64, f: EditCodec.NewFile)
    ensures EditCodec.Encode(EditCodec.DeletedFile(level, n)) == [6] + (Varint(level) + Varint(n))
    ensures EditCodec.Encode(EditCodec.Added(f)) ==
            [7] + (Varint(f.level) + Varint(f.number) + Varint(f.size) + LengthPrefixed(f.smallest) + LengthPrefixed(f.largest))
  {
    hide Varint, LengthPrefixed;
  }

  /** The order of the fields of an edit. */
  lemma EditBytes(name: Bytes, key: Bytes, log: Word64, prev: Word64, next: Word64, last: Word64, file: Word64, f: EditCodec.NewFile)
    ensures EditCodec.EncodeAll(EditCodec.FieldsOf(
              EditCodec.Edit(Some(name), Some(log), Some(prev), Some(next), Some(last), [(1, key)], [(2, file)], [f]))) ==
            EditCodec.Encode(EditCodec.Comparator(name)) + EditCodec.Encode(EditCodec.LogNumber(log))
            + EditCodec.Encode(EditCodec.PrevLogNumber(prev)) + EditCodec.Encode(EditCodec.NextFileNumber(next))
            + EditCodec.Encode(EditCodec.LastSequence(last)) + EditCodec.Encode(EditCodec.CompactPointer(1, key))
            + EditCodec.Encode(EditCodec.DeletedFile(2, file)) + EditCodec.Encode(EditCodec.Added(f))
  {
    hide EditCodec.Encode, EditCodec.EncodeAll;
    var fields := [EditCodec.Comparator(name), EditCodec.LogNumber(log), EditCodec.PrevLogNumber(prev), EditCodec.NextFileNumber(next),
                   EditCodec.LastSequence(last), EditCodec.CompactPointer(1, key), EditCodec.DeletedFile(2, file), EditCodec.Added(f)];
    assert EditCodec.FieldsOf(EditCodec.Edit(Some(name), Some(log), Some(prev), Some(next), Some(last), [(1, key)], [(2, file)], [f])) == fields;
    EightFields(fields);
  }

  lemma EightFields(fs: seq<EditCodec.Field>)
    requires |fs| == 8
    ensures EditCodec.EncodeAll(fs) ==
            EditCodec.Encode(fs[0]) + EditCodec.Encode(fs[1]) + EditCodec.Encode(fs[2]) + EditCodec.Encode(fs[3])
            + EditCodec.Encode(fs[4]) + EditCodec.Encode(fs[5]) + EditCodec.Encode(fs[6]) + EditCodec.Encode(fs[7])
  {
    assert EditCodec.EncodeAll(fs[..0]) == [];
    hide EditCodec.Encode, EditCodec.EncodeAll;
    forall k | 0 <= k < 8 ensures EditCodec.EncodeAll(fs[..k + 1]) == EditCodec.EncodeAll(fs[..k]) + EditCodec.Encode(fs[k]) {
      assert fs[..k] + [fs[k]] == fs[..k + 1];
      EditCodec.EncodedMore(fs[..k], fs[k]);
    }
    assert EditCodec.EncodeAll(fs[..1]) == [] + EditCodec.Encode(fs[0]) == EditCodec.Encode(fs[0]);
    assert fs[..8] == fs;
  }

  /** An internal key: the user key and a 64-bit word, its lowest byte 1 for a value and 0 for a
      deletion, the others the sequence number. */
  lemma KeyBytes(user: Bytes, sequence: nat, kind: Kind)
    requires sequence <= MAX_SEQUENCE
    ensures var key := Comparator.EncodeKey(user, IKey(0, sequence, kind).Tag());
            && key[..|user|] == user && |key| == |user| + 8
            && key[|user|] == (if kind.Value? then 1 else 0) && DecodeFixed64(key[|user|..]) / 256 == sequence
  {
    var tag := IKey(0, sequence, kind).Tag();
    var code: nat := if kind.Value? then 1 else 0;
    assert tag == sequence * 256 + code;
    FirstByte(tag);
    Fixed64RoundTrip(tag);
    hide DecodeFixed64, Fixed64, IKey.Tag;
    assert Comparator.EncodeKey(user, tag)[|user|..] == Fixed64(tag);
    TagParts(sequence, code);
  }

  lemma FirstByte(tag: Word64)
    ensures |Fixed64(tag)| == 8 && Fixed64(tag)[0] == tag % 256
  {
  }

  lemma TagParts(sequence: nat, code: nat)
    requires code < 256
    ensures (sequence * 256 + code) / 256 == sequence && (sequence * 256 + code) % 256 == code
  {
  }

  lemma TableBytes()
    ensures TableFormat.EncodeHandle(TableFormat.Handle(300, 5)) == [172, 2, 5]
    ensures BlockFormat.EncodeEntry(1, BlockFormat.KeyValue([7, 8], [9])) == [1, 1, 1, 8, 9]
    ensures FilterBlock.Contents([1, 2], [0]) == [1, 2] + [0, 0, 0, 0] + [2, 0, 0, 0] + [11]
  {
    VarintStep(300);
    VarintStep(2);
    VarintStep(5);
    VarintStep(1);
    hide Varint;
  }

  // ----- Bloom filters -----

  /** The probes of a key: its hash, and steps of the hash rotated right by 17 bits. */
  lemma ProbeSteps(h: Word, j: nat)
    ensures Bloom.Probe(h, j) == (h + j * (h / 0x2_0000 + h % 0x2_0000 * 0x8000)) % 0x1_0000_0000
  {
    var delta: nat := Bloom.Delta(h);
    assert delta == h / 0x2_0000 + h % 0x2_0000 * 0x8000;
    hide Bloom.Delta;
    StepsOf(h, j, delta);
  }

  lemma {:induction false} StepsOf(h: Word, j: nat, delta: nat)
    requires delta == Bloom.Delta(h)
    ensures Bloom.Probe(h, j) == (h + j * delta) % 0x1_0000_0000
  {
    hide Bloom.Delta;
    if j > 0 {
      StepsOf(h, j - 1, delta);
      AddModulo(h + (j - 1) * delta, delta);
      assert (j - 1) * delta + delta == j * delta;
    } else {
      assert 0 * delta == 0;
    }
  }

  lemma AddModulo(a: nat, b: nat)
    ensures (a % 0x1_0000_0000 + b) % 0x1_0000_0000 == (a + b) % 0x1_0000_0000
  {
    var q := a / 0x1_0000_0000;
    assert a + b == a % 0x1_0000_0000 + b + q * 0x1_0000_0000;
  }

  /** A filter has the bits per key asked for, at least 64, in whole bytes, and the number of probes
      behind them. */
  lemma FilterSize(p: Bloom.Params, keys: seq<Bytes>)
    requires p.Valid()
    ensures var filter, bits := Bloom.Created(p, keys), 8 * |Bloom.Created(p, keys)| - 8;
            && bits >= 64 && bits >= |keys| * p.bitsPerKey && (bits > 64 ==> bits < |keys| * p.bitsPerKey + 8)
            && filter[|filter| - 1] == p.k
  {
    hide Bloom.MarkKeys;
  }

  // ----- protobuf -----

  /** The key of a field: its tag, and in the lowest three bits 0 for varints, 1 and 5 for words of
      eight and of four bytes, and 2 for what has a length. */
  lemma FieldKeys(tag: nat, lt: PbFormat.LType)
    ensures PbFormat.Tag(PbFormat.WireType(lt), tag) ==
            Varint(tag * 8 +
                   if lt.LFixed64? then 1 else if lt.LFixed32? then 5
                   else if lt.LBytes? || lt.LString? || lt.LMessage? then 2 else 0)
    ensures PbFormat.Tag(PbFormat.STRING, tag) == Varint(tag * 8 + 2)
  {
    hide Varint;
  }

  /** Values: two's complement in ten bytes for negative numbers of signed types, zigzag for sint
      types, words little-endian, everything with a length behind that. */
  lemma ValueBytes(w: PbFormat.Width, i: int, b: Bytes)
    ensures 0 <= i < PbFormat.Modulus(w) ==> PbFormat.EncodeScalar(PbFormat.LUVarint(w), i) == Varint(i)
    ensures 0 <= 2 * i < PbFormat.Modulus(w) ==> PbFormat.EncodeScalar(PbFormat.LVarint(w), i) == Varint(i)
    ensures -PbFormat.Modulus(w) <= 2 * i < 0 ==>
              PbFormat.EncodeScalar(PbFormat.LVarint(w), i) == Varint(i + 0x1_0000_0000_0000_0000) && |PbFormat.EncodeScalar(PbFormat.LVarint(w), i)| == 10
    ensures -PbFormat.Modulus(w) <= 2 * i < PbFormat.Modulus(w) ==>
              PbFormat.EncodeScalar(PbFormat.LSVarint(w), i) == Varint(if i >= 0 then 2 * i else -2 * i - 1)
    ensures 0 <= i < 0x1_0000_0000 ==> PbFormat.EncodeScalar(PbFormat.LFixed32, i) == Fixed32(i)
    ensures 0 <= i < 0x1_0000_0000_0000_0000 ==> PbFormat.EncodeScalar(PbFormat.LFixed64, i) == Fixed64(i)
    ensures i == 0 || i == 1 ==> PbFormat.EncodeScalar(PbFormat.LBool, i) == [i]
    ensures PbFormat.Prefixed(b) == Varint(|b|) + b
  {
    if i == 0 || i == 1 {
      VarintStep(i);
    }
    if -PbFormat.Modulus(w) <= 2 * i < 0 {
      TenBytes(i + 0x1_0000_0000_0000_0000);
    }
    hide Varint, Fixed32, Fixed64;
  }

  lemma TenBytes(v: nat)
    requires 0x8000_0000_0000_0000 <= v < 0x1_0000_0000_0000_0000
    ensures |Varint(v)| == 10
  {
    LengthAtLeast(v, 9);
    VarintLength64(v);
    assert Power128(5) == 0x8_0000_0000;
    assert Power128(9) == 128 * 128 * 128 * 128 * Power128(5);
  }

  lemma {:induction false} LengthAtLeast(v: nat, n: nat)
    ensures v >= Power128(n) ==> |Varint(v)| > n
  {
    if n > 0 {
      LengthAtLeast(v / 128, n - 1);
    }
  }
}
