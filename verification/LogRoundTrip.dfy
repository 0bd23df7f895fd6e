/** The reader gives back what the writer wrote, however the file was cut off. */
module LogRoundTrip {
  import opened DbFormat
  import opened Coding
  import opened LogFormat
  import opened LogReader
  import LogWriter

  lemma PhysicalParses(crc: Checksum, buffer: Bytes, eof: bool, t: Byte, payload: Bytes)
    requires |payload| <= 0xffff && t != ZERO_TYPE
    requires |Physical(crc, t, payload)| <= |buffer| && buffer[..|Physical(crc, t, payload)|] == Physical(crc, t, payload)
    ensures ParseBuffer(crc, buffer, eof) == Outcome(Fragment(t, payload), HEADER_SIZE + |payload|, [])
  {
    var chunk := Physical(crc, t, payload);
    var n := HEADER_SIZE + |payload|;
    assert chunk[4] == buffer[4] && chunk[5] == buffer[5] && chunk[6] == buffer[6];
    assert PayloadLength(chunk[4], chunk[5]) == |payload|;
    assert buffer[HEADER_SIZE..n] == chunk[HEADER_SIZE..n] == payload;
    assert buffer[6..n] == chunk[6..n] == [t] + payload;
    assert buffer[..4] == chunk[..4] == Fixed32(Mask(crc([t] + payload)));
    Fixed32RoundTrip(Mask(crc([t] + payload)));
    UnmaskInvertsMask(crc([t] + payload));
  }

  // Where the fragment after offset p starts.
  function StartOf(p: nat): nat {
    p + |Trailer(InBlock(p))|
  }

  lemma StartInBlock(length: nat, p: nat)
    ensures InBlock(StartOf(p)) == FragmentStart(InBlock(p))
    ensures StartOf(p) > p ==> StartOf(p) == p - InBlock(p) + BLOCK_SIZE && BLOCK_SIZE - InBlock(p) < HEADER_SIZE
    ensures var e := StartOf(p) - FragmentStart(InBlock(p)) + BLOCK_SIZE;
            StartOf(p) <= length ==> BlockEnd(length, StartOf(p)) == (if length < e then length else e)
  {
  }

  lemma ShortRest(crc: Checksum, file: Bytes, p: nat)
    requires p <= |file| && BlockEnd(|file|, p) - p < HEADER_SIZE
    ensures ReadPhysicalAt(crc, file, p) ==
            if BlockEnd(|file|, p) == |file| then Outcome(Eof, |file|, []) else ReadPhysicalAt(crc, file, BlockEnd(|file|, p))
  {
  }

  // The trailer is skipped unread.
  lemma TrailerSkipped(crc: Checksum, file: Bytes, p: nat)
    requires p <= |file|
    ensures StartOf(p) <= |file| ==> ReadPhysicalAt(crc, file, p) == ReadPhysicalAt(crc, file, StartOf(p))
    ensures StartOf(p) > |file| ==> ReadPhysicalAt(crc, file, p) == Outcome(Eof, |file|, [])
  {
    hide ReadPhysicalAt;
    StartInBlock(|file|, p);
    if StartOf(p) > p {
      TrailerEnd(|file|, p);
      ShortRest(crc, file, p);
      if StartOf(p) == |file| {
        ShortRest(crc, file, |file|);
      }
    }
  }

  lemma TrailerEnd(length: nat, p: nat)
    requires p <= length && StartOf(p) > p
    ensures BlockEnd(length, p) == if length < StartOf(p) then length else StartOf(p)
    ensures BlockEnd(length, p) - p < HEADER_SIZE
    ensures BlockEnd(length, length) == length
  {
  }

  lemma WholeFragmentRead(crc: Checksum, file: Bytes, p: nat, t: Byte, payload: Bytes)
    requires t != ZERO_TYPE && FragmentStart(InBlock(p)) + HEADER_SIZE + |payload| <= BLOCK_SIZE
    requires var q := StartOf(p); var n := HEADER_SIZE + |payload|;
             q + n <= |file| && file[q..q + n] == Physical(crc, t, payload)
    ensures ReadPhysicalAt(crc, file, p) == Outcome(Fragment(t, payload), StartOf(p) + HEADER_SIZE + |payload|, [])
  {
    hide ParseBuffer, Physical;
    var q, n := StartOf(p), HEADER_SIZE + |payload|;
    TrailerSkipped(crc, file, p);
    StartInBlock(|file|, p);
    var e := BlockEnd(|file|, q);
    assert file[q..e][..n] == file[q..q + n];
    PhysicalParses(crc, file[q..e], AtEndOfFile(file, e), t, payload);
  }

  lemma CutFragmentRead(crc: Checksum, file: Bytes, p: nat, t: Byte, payload: Bytes)
    requires p <= |file| && FragmentStart(InBlock(p)) + HEADER_SIZE + |payload| <= BLOCK_SIZE
    requires var q := StartOf(p);
             && |file| < q + HEADER_SIZE + |payload|
             && (q <= |file| ==> file[q..] == Physical(crc, t, payload)[..|file| - q])
    ensures ReadPhysicalAt(crc, file, p) == Outcome(Eof, |file|, [])
  {
    hide ReadPhysicalAt, BlockEnd, InBlock, Physical;
    var q := StartOf(p);
    TrailerSkipped(crc, file, p);
    StartInBlock(|file|, p);
    if q <= |file| {
      if |file| - q < HEADER_SIZE {
        ShortRest(crc, file, q);
      } else {
        CutParse(crc, file[q..], t, payload);
        assert file[q..|file|] == file[q..];
        CutBlock(|file|, q);
        LongRest(crc, file, q);
      }
    }
  }

  lemma LongRest(crc: Checksum, file: Bytes, p: nat)
    requires p <= |file| && BlockEnd(|file|, p) - p >= HEADER_SIZE
    ensures var e := BlockEnd(|file|, p);
            var o := ParseBuffer(crc, file[p..e], AtEndOfFile(file, e));
            ReadPhysicalAt(crc, file, p) == o.(next := p + o.next)
  {
  }

  // A file that ends inside a fragment does not end at a block boundary.
  lemma CutBlock(length: nat, q: nat)
    requires q < length < q - InBlock(q) + BLOCK_SIZE
    ensures !BlockStart(length) && BlockEnd(length, q) == length
  {
  }

  lemma CutParse(crc: Checksum, buffer: Bytes, t: Byte, payload: Bytes)
    requires |payload| <= 0xffff && HEADER_SIZE <= |buffer| < HEADER_SIZE + |payload|
    requires buffer == Physical(crc, t, payload)[..|buffer|]
    ensures ParseBuffer(crc, buffer, true) == Outcome(Eof, |buffer|, [])
  {
    var chunk := Physical(crc, t, payload);
    assert chunk[4] == buffer[4] && chunk[5] == buffer[5];
    assert PayloadLength(chunk[4], chunk[5]) == |payload|;
  }

  // ----- logical records -----

  // The first fragment of data and what is left of it.
  lemma SplitEmit(crc: Checksum, data: Bytes, p: nat, begin: bool)
    ensures var n := FragmentLength(|data|, InBlock(p));
            var end := |data| == n;
            var next := StartOf(p) + HEADER_SIZE + n;
            && n <= |data| && FragmentStart(InBlock(p)) + HEADER_SIZE + n <= BLOCK_SIZE
            && Emit(crc, data, InBlock(p), begin) ==
               Trailer(InBlock(p)) + Physical(crc, FragmentType(begin, end), data[..n]) +
               (if end then [] else Emit(crc, data[n..], InBlock(next), false))
  {
    hide Emit, Physical, Trailer;
    var n := FragmentLength(|data|, InBlock(p));
    EmitStep(crc, data, InBlock(p), begin);
    NextInBlock(p, n);
    LogWriter.BlockEndIsBlockStart(crc, data[n..], false);
  }

  lemma NextInBlock(p: nat, n: nat)
    requires FragmentStart(InBlock(p)) + HEADER_SIZE + n <= BLOCK_SIZE
    ensures var offset := FragmentStart(InBlock(p)) + HEADER_SIZE + n;
            InBlock(StartOf(p) + HEADER_SIZE + n) == if offset == BLOCK_SIZE then 0 else offset
  {
    StartInBlock(0, p);
  }

  predicate AgreesAt(file: Bytes, p: nat, bytes: Bytes)
    requires p <= |file|
  {
    if p + |bytes| <= |file| then file[p..p + |bytes|] == bytes else file[p..] == bytes[..|file| - p]
  }

  lemma AgreesOnParts(file: Bytes, p: nat, a: Bytes, b: Bytes)
    requires p <= |file| && AgreesAt(file, p, a + b)
    ensures AgreesAt(file, p, a)
    ensures p + |a| <= |file| ==> AgreesAt(file, p + |a|, b)
  {
    var c := a + b;
    if p + |a| <= |file| {
      assert file[p..p + |a|] == a by {
        forall i | 0 <= i < |a| ensures file[p + i] == a[i] {
          assert c[i] == a[i];
          assert p + |c| <= |file| ==> file[p..p + |c|][i] == c[i];
          assert p + |c| > |file| ==> file[p..][i] == c[i];
        }
      }
      forall i | 0 <= i < |b| && p + |a| + i < |file| ensures file[p + |a| + i] == b[i] {
        assert c[|a| + i] == b[i];
        assert p + |c| <= |file| ==> file[p..p + |c|][|a| + i] == c[|a| + i];
        assert p + |c| > |file| ==> file[p..][|a| + i] == c[|a| + i];
      }
    } else {
      forall i | 0 <= i < |file| - p ensures file[p + i] == a[i] {
        assert c[i] == a[i];
        assert file[p..][i] == c[i];
      }
    }
  }

  lemma AfterEof(crc: Checksum, file: Bytes, p: nat, inFragment: bool, scratch: Bytes)
    requires p <= |file| && ReadPhysicalAt(crc, file, p) == Outcome(Eof, |file|, [])
    ensures ReadRecordAt(crc, file, p, inFragment, scratch) == Outcome(None, |file|, [])
  {
    hide ReadPhysicalAt;
    RecordStep(crc, file, p, inFragment, scratch);
  }

  lemma AfterFragment(crc: Checksum, file: Bytes, p: nat, begin: bool, end: bool, data: Bytes, next: nat, scratch: Bytes)
    requires p <= |file| && (begin ==> scratch == [])
    requires ReadPhysicalAt(crc, file, p) == Outcome(Fragment(FragmentType(begin, end), data), next, [])
    ensures next <= |file|
    ensures ReadRecordAt(crc, file, p, !begin, scratch) ==
            if end then Outcome(Some(scratch + data), next, []) else ReadRecordAt(crc, file, next, true, scratch + data)
  {
    hide ReadPhysicalAt;
    RecordStep(crc, file, p, !begin, scratch);
    assert scratch == [] ==> scratch + data == data;
  }

  /** Reading from where a record was emitted: the whole record, or nothing if the file ends
      inside it; either way nothing is reported. */
  lemma {:induction false} EmittedRead(crc: Checksum, file: Bytes, p: nat, data: Bytes, begin: bool, scratch: Bytes)
    requires p <= |file| && AgreesAt(file, p, Emit(crc, data, InBlock(p), begin))
    requires begin ==> scratch == []
    ensures ReadRecordAt(crc, file, p, !begin, scratch) ==
            var n := |Emit(crc, data, InBlock(p), begin)|;
            if p + n <= |file| then Outcome(Some(scratch + data), p + n, []) else Outcome(None, |file|, [])
    decreases |data|, InBlock(p) == BLOCK_SIZE - HEADER_SIZE
  {
    hide Emit, Physical, Trailer, FragmentLength, ReadPhysicalAt, InBlock, RecordTurn, ReadRecordAt;
    SplitEmit(crc, data, p, begin);
    var n := FragmentLength(|data|, InBlock(p));
    var end := |data| == n;
    var t := FragmentType(begin, end);
    var chunk := Physical(crc, t, data[..n]);
    var next := StartOf(p) + HEADER_SIZE + n;
    var rest := if end then [] else Emit(crc, data[n..], InBlock(next), false);
    AgreesOnParts(file, p, Trailer(InBlock(p)) + chunk, rest);
    AgreesOnParts(file, p, Trailer(InBlock(p)), chunk);
    assert |Emit(crc, data, InBlock(p), begin)| == next - p + |rest|;
    if next > |file| {
      CutFragmentRead(crc, file, p, t, data[..n]);
      AfterEof(crc, file, p, !begin, scratch);
    } else {
      WholeFragmentRead(crc, file, p, t, data[..n]);
      AfterFragment(crc, file, p, begin, end, data[..n], next, scratch);
      if end {
        assert data[..n] == data;
        assert begin ==> scratch + data == data;
      } else {
        ShorterFragment(|data|, p);
        assert begin ==> scratch + data[..n] == data[..n];
        EmittedRead(crc, file, next, data[n..], false, scratch + data[..n]);
        assert scratch + data[..n] + data[n..] == scratch + data;
      }
    }
  }

  lemma ShorterFragment(left: nat, p: nat)
    requires FragmentLength(left, InBlock(p)) < left
    ensures var n := FragmentLength(left, InBlock(p));
            n > 0 || (InBlock(p) == BLOCK_SIZE - HEADER_SIZE && InBlock(StartOf(p) + HEADER_SIZE + n) == 0)
  {
    StartInBlock(0, p);
  }

  // ----- whole files -----

  lemma LogBytesStep(crc: Checksum, records: seq<Bytes>, m: nat)
    requires m < |records|
    ensures LogBytes(crc, records[..m + 1]) ==
            LogBytes(crc, records[..m]) + Emit(crc, records[m], InBlock(|LogBytes(crc, records[..m])|), true)
  {
    assert records[..m + 1][..m] == records[..m];
  }

  lemma {:induction false} LogBytesPrefix(crc: Checksum, records: seq<Bytes>, m: nat, n: nat)
    requires m <= n <= |records|
    ensures LogBytes(crc, records[..m]) <= LogBytes(crc, records[..n])
    decreases n
  {
    hide LogBytes, Emit;
    if m < n {
      LogBytesPrefix(crc, records, m, n - 1);
      LogBytesStep(crc, records, n - 1);
    }
  }

  // file is a prefix of the log that holds exactly the first m records completely.
  ghost predicate CutAfter(crc: Checksum, records: seq<Bytes>, file: Bytes, m: nat) {
    && m <= |records|
    && file <= LogBytes(crc, records)
    && |LogBytes(crc, records[..m])| <= |file|
    && (m < |records| ==> |file| < |LogBytes(crc, records[..m + 1])|)
  }

  lemma PrefixAgrees(file: Bytes, log: Bytes, before: Bytes, chunk: Bytes)
    requires file <= log && before + chunk <= log && |before| <= |file|
    ensures AgreesAt(file, |before|, chunk)
  {
    var both := before + chunk;
    forall i | 0 <= i < |chunk| && |before| + i < |file| ensures file[|before| + i] == chunk[i] {
      assert both[|before| + i] == log[|before| + i] == file[|before| + i];
    }
  }

  /** Crash recovery of a log: on any prefix of the file, read from the start of any record, the
      reader returns exactly the remaining records that lie wholly inside the prefix, and reports
      nothing dropped. */
  lemma {:induction false} ReadFromRecord(crc: Checksum, records: seq<Bytes>, file: Bytes, i: nat, m: nat)
    requires CutAfter(crc, records, file, m) && i <= m
    ensures |LogBytes(crc, records[..i])| <= |file|
    ensures ReadAll(crc, file, |LogBytes(crc, records[..i])|) == (records[i..m], [])
    decreases m - i
  {
    hide LogBytes, Emit, ReadRecordAt, InBlock, ReadAll;
    var p := |LogBytes(crc, records[..i])|;
    LogBytesPrefix(crc, records, i, m);
    assert records[..|records|] == records;
    if i < |records| {
      var chunk := Emit(crc, records[i], InBlock(p), true);
      LogBytesStep(crc, records, i);
      LogBytesPrefix(crc, records, i + 1, |records|);
      PrefixAgrees(file, LogBytes(crc, records), LogBytes(crc, records[..i]), chunk);
      EmittedRead(crc, file, p, records[i], true, []);
      assert [] + records[i] == records[i];
      if i < m {
        LogBytesPrefix(crc, records, i + 1, m);
        ReadFromRecord(crc, records, file, i + 1, m);
        ReadAllStep(crc, file, p, records[i], |LogBytes(crc, records[..i + 1])|, records[i + 1..m]);
        assert records[i..m] == [records[i]] + records[i + 1..m];
      } else {
        assert records[i..m] == [];
        ReadAllEnds(crc, file, p);
      }
    } else {
      NothingAfterEnd(crc, file);
      ReadAllEnds(crc, file, p);
    }
  }

  lemma ReadAllEnds(crc: Checksum, file: Bytes, p: nat)
    requires p <= |file| && ReadRecordAt(crc, file, p, false, []) == Outcome(None, |file|, [])
    ensures ReadAll(crc, file, p) == ([], [])
  {
    hide ReadRecordAt;
  }

  lemma ReadAllStep(crc: Checksum, file: Bytes, p: nat, record: Bytes, next: nat, rest: seq<Bytes>)
    requires p < next <= |file|
    requires ReadRecordAt(crc, file, p, false, []) == Outcome(Some(record), next, [])
    requires ReadAll(crc, file, next) == (rest, [])
    ensures ReadAll(crc, file, p) == ([record] + rest, [])
  {
    hide ReadRecordAt;
    var none: seq<nat> := [];
    assert none + none == none;
  }

  lemma NothingAfterEnd(crc: Checksum, file: Bytes)
    ensures ReadRecordAt(crc, file, |file|, false, []) == Outcome(None, |file|, [])
  {
    hide ParseBuffer;
    assert BlockEnd(|file|, |file|) == |file|;
    assert ReadPhysicalAt(crc, file, |file|) == Outcome(Eof, |file|, []);
  }

  /** The complete log reads back as the records that were added. */
  lemma LogRoundTrip(crc: Checksum, records: seq<Bytes>)
    ensures ReadAll(crc, LogBytes(crc, records), 0) == (records, [])
  {
    hide LogBytes, ReadAll;
    assert records[..|records|] == records && records[0..|records|] == records;
    EmptyLog(crc, records);
    ReadFromRecord(crc, records, LogBytes(crc, records), 0, |records|);
  }

  lemma EmptyLog(crc: Checksum, records: seq<Bytes>)
    ensures LogBytes(crc, records[..0]) == []
  {
  }

  lemma CutLogReadsPrefix(crc: Checksum, records: seq<Bytes>, file: Bytes, m: nat)
    requires CutAfter(crc, records, file, m)
    ensures ReadAll(crc, file, 0) == (records[..m], [])
  {
    hide LogBytes, ReadAll;
    EmptyLog(crc, records);
    ReadFromRecord(crc, records, file, 0, m);
    assert records[0..m] == records[..m];
  }

  /** Every prefix of a log is cut after some record. */
  lemma {:induction false} SomeCut(crc: Checksum, records: seq<Bytes>, file: Bytes, n: nat) returns (m: nat)
    requires file <= LogBytes(crc, records) && n <= |records|
    requires n < |records| ==> |file| < |LogBytes(crc, records[..n + 1])|
    ensures CutAfter(crc, records, file, m)
    decreases n
  {
    if |LogBytes(crc, records[..n])| <= |file| {
      m := n;
    } else {
      EmptyLog(crc, records);
      m := SomeCut(crc, records, file, n - 1);
    }
  }

  // ----- fragments that do not fit together -----

  // Two fragments in the first block.
  lemma TwoFragmentsRead(crc: Checksum, t: Byte, a: Bytes, u: Byte, b: Bytes)
    requires 0 < t && 0 < u && |a| < 1000 && |b| < 1000
    ensures var file := Physical(crc, t, a) + Physical(crc, u, b);
            && ReadPhysicalAt(crc, file, 0) == Outcome(Fragment(t, a), 7 + |a|, [])
            && ReadPhysicalAt(crc, file, 7 + |a|) == Outcome(Fragment(u, b), 14 + |a| + |b|, [])
            && ReadPhysicalAt(crc, file, 14 + |a| + |b|) == Outcome(Eof, 14 + |a| + |b|, [])
  {
    hide Physical, ReadPhysicalAt;
    var file := Physical(crc, t, a) + Physical(crc, u, b);
    assert file[0..7 + |a|] == Physical(crc, t, a);
    assert file[7 + |a|..14 + |a| + |b|] == Physical(crc, u, b);
    assert StartOf(0) == 0 && StartOf(7 + |a|) == 7 + |a|;
    WholeFragmentRead(crc, file, 0, t, a);
    WholeFragmentRead(crc, file, 7 + |a|, u, b);
    EndOfFileRead(crc, file);
  }

  /** A whole record (1) behind an unfinished one (2): it is read, and the bytes of the other are
      reported, unless there are none. */
  lemma UnfinishedReported(crc: Checksum, a: Bytes, b: Bytes)
    requires |a| < 1000 && |b| < 1000
    ensures ReadAll(crc, Physical(crc, 2, a) + Physical(crc, 1, b), 0) == ([b], if a == [] then [] else [|a|])
  {
    hide Physical, ReadPhysicalAt, ReadAll, ReadRecordAt;
    var file := Physical(crc, 2, a) + Physical(crc, 1, b);
    TwoFragmentsRead(crc, 2, a, 1, b);
    RecordStep(crc, file, 0, false, []);
    RecordStep(crc, file, 7 + |a|, true, a);
    AfterEof(crc, file, |file|, false, []);
    ReadAllEnds(crc, file, |file|);
    OneRead(crc, file, 0, b, |file|, if a == [] then [] else [|a|]);
  }

  /** First (2) and last (4) fragment are put together. */
  lemma HalvesJoined(crc: Checksum, a: Bytes, b: Bytes)
    requires |a| < 1000 && |b| < 1000
    ensures ReadAll(crc, Physical(crc, 2, a) + Physical(crc, 4, b), 0) == ([a + b], [])
  {
    hide Physical, ReadPhysicalAt, ReadAll, ReadRecordAt;
    var file := Physical(crc, 2, a) + Physical(crc, 4, b);
    TwoFragmentsRead(crc, 2, a, 4, b);
    RecordStep(crc, file, 0, false, []);
    RecordStep(crc, file, 7 + |a|, true, a);
    AfterEof(crc, file, |file|, false, []);
    ReadAllEnds(crc, file, |file|);
    OneRead(crc, file, 0, a + b, |file|, []);
  }

  /** A middle (3) or last (4) fragment without a first one is reported and skipped, and so is one
      of an unknown type; the record behind it is read. */
  lemma StrayReported(crc: Checksum, t: Byte, a: Bytes, b: Bytes)
    requires t > 2 && |a| < 1000 && |b| < 1000
    ensures ReadAll(crc, Physical(crc, t, a) + Physical(crc, 1, b), 0) == ([b], [|a|])
  {
    hide Physical, ReadPhysicalAt, ReadAll, ReadRecordAt;
    var file := Physical(crc, t, a) + Physical(crc, 1, b);
    TwoFragmentsRead(crc, t, a, 1, b);
    RecordStep(crc, file, 0, false, []);
    RecordStep(crc, file, 7 + |a|, false, []);
    AfterEof(crc, file, |file|, false, []);
    ReadAllEnds(crc, file, |file|);
    OneRead(crc, file, 0, b, |file|, [|a|]);
  }

  lemma OneRead(crc: Checksum, file: Bytes, p: nat, record: Bytes, next: nat, drops: seq<nat>)
    requires p < next <= |file| && ReadRecordAt(crc, file, p, false, []) == Outcome(Some(record), next, drops)
    requires ReadAll(crc, file, next) == ([], [])
    ensures ReadAll(crc, file, p) == ([record], drops)
  {
    hide ReadRecordAt;
    assert [record] + [] == [record] && drops + [] == drops;
  }
}
