/** A log that a writer goes on with after a crash: exactly which cuts it may be reopened behind. */
module LogReuse {
  import opened DbFormat
  import opened Coding
  import opened LogFormat
  import opened LogReader
  import opened LogRoundTrip
  import LogWriter

  // ----- files -----

  predicate HasBytes(all: Bytes, p: nat, bytes: Bytes) {
    p + |bytes| <= |all| && all[p..p + |bytes|] == bytes
  }

  // What a writer adds to a file of length p.
  function Emitted(crc: Checksum, data: Bytes, p: nat): Bytes {
    Emit(crc, data, InBlock(p), true)
  }

  // Where the first n bytes of a block are left free for a trailer, they are zeros.
  predicate Padded(all: Bytes, p: nat)
    requires p <= |all|
  {
    AgreesAt(all, p, Trailer(InBlock(p)))
  }

  lemma CutParts(a: Bytes, chunk: Bytes, rest: Bytes, k: nat)
    requires |a| <= k <= |a| + |chunk|
    ensures k <= |a + chunk + rest| && (a + chunk + rest)[..k] == a + chunk[..k - |a|]
  {
  }

  lemma HasParts(all: Bytes, p: nat, a: Bytes, b: Bytes)
    requires HasBytes(all, p, a + b)
    ensures HasBytes(all, p, a) && HasBytes(all, p + |a|, b)
  {
    assert all[p..p + |a|] == all[p..p + |a + b|][..|a|];
    assert all[p + |a|..p + |a| + |b|] == all[p..p + |a + b|][|a|..];
  }

  lemma HasAgrees(all: Bytes, p: nat, bytes: Bytes)
    requires HasBytes(all, p, bytes)
    ensures AgreesAt(all, p, bytes)
  {
  }

  lemma Extended(file: Bytes, bytes: Bytes, all: Bytes)
    requires file + bytes <= all
    ensures file <= all && HasBytes(all, |file|, bytes)
  {
    assert all[|file|..|file| + |bytes|] == (file + bytes)[|file|..] == bytes;
    assert all[..|file|] == (file + bytes)[..|file|] == file;
  }

  // ----- where a record may be cut -----

  /** The cuts behind which a reopened writer loses nothing.  A record of so many bytes is being
      added to a file of length p, and k bytes of it are there: none of a header; or a header at
      the very end of a block of which the writer's zeros make an empty one, because its length
      is not yet written or is zero; or the header of a first fragment that had no room for data. */
  predicate SafeCut(left: nat, p: nat, k: nat) {
    var trailer, room, n := |Trailer(InBlock(p))|, BLOCK_SIZE - FragmentStart(InBlock(p)), FragmentLength(left, InBlock(p));
    || k <= trailer
    || (k < trailer + HEADER_SIZE && room < k - trailer + HEADER_SIZE && (k - trailer <= 4 || n == 0))
    || (k == trailer + HEADER_SIZE && n == 0)
  }

  // Whether the reader then is inside a record, of which it has no bytes yet.
  predicate PendingAfter(p: nat, k: nat, pending: bool) {
    if k == 0 then pending else k == |Trailer(InBlock(p))| + HEADER_SIZE
  }

  // ----- reading on behind what has been read -----

  // All records from p on, by a reader that is inside a record without bytes, or not.
  function ReadOn(crc: Checksum, all: Bytes, p: nat, pending: bool): (seq<Bytes>, seq<nat>)
    requires p <= |all|
  {
    var o := ReadRecordAt(crc, all, p, pending, []);
    match o.result
    case None => ([], o.drops)
    case Some(record) =>
      var (rest, drops) := ReadAll(crc, all, o.next);
      ([record] + rest, o.drops + drops)
  }

  /** A writer may go on at the end of file: whatever bytes follow its padding, the reader has
      the records, has reported nothing, and reads on there. */
  ghost predicate Resumes(crc: Checksum, file: Bytes, records: seq<Bytes>, pending: bool) {
    && (pending ==> BlockStart(|file|))
    && forall all :: file <= all && Padded(all, |file|) ==>
         var (rest, drops) := ReadOn(crc, all, |file|, pending);
         ReadAll(crc, all, 0) == (records + rest, drops)
  }

  lemma ReadsOn(crc: Checksum, file: Bytes, records: seq<Bytes>, pending: bool, all: Bytes)
    requires Resumes(crc, file, records, pending) && file <= all && Padded(all, |file|)
    ensures var (rest, drops) := ReadOn(crc, all, |file|, pending); ReadAll(crc, all, 0) == (records + rest, drops)
  {
    hide ReadOn, ReadAll, Padded;
  }

  lemma EmptyResumes(crc: Checksum)
    ensures Resumes(crc, [], [], false)
  {
    hide ReadRecordAt;
    forall all | [] <= all && Padded(all, 0)
      ensures var (rest, drops) := ReadOn(crc, all, 0, false); ReadAll(crc, all, 0) == ([] + rest, drops)
    {
      var (rest, drops) := ReadOn(crc, all, 0, false);
      assert [] + rest == rest;
    }
  }

  // Inside a record without bytes, a first fragment is read as outside of one.
  lemma PendingForgotten(crc: Checksum, all: Bytes, p: nat, data: Bytes)
    requires p <= |all| && AgreesAt(all, p, Emitted(crc, data, p))
    ensures ReadRecordAt(crc, all, p, true, []) == ReadRecordAt(crc, all, p, false, [])
  {
    hide Emit, Physical, Trailer, FragmentLength, ReadPhysicalAt, InBlock, ReadRecordAt;
    SplitEmit(crc, data, p, true);
    var n := FragmentLength(|data|, InBlock(p));
    var end := |data| == n;
    var chunk := Physical(crc, FragmentType(true, end), data[..n]);
    var next := StartOf(p) + HEADER_SIZE + n;
    var rest := if end then [] else Emit(crc, data[n..], InBlock(next), false);
    AgreesOnParts(all, p, Trailer(InBlock(p)) + chunk, rest);
    AgreesOnParts(all, p, Trailer(InBlock(p)), chunk);
    if next > |all| {
      CutFragmentRead(crc, all, p, FragmentType(true, end), data[..n]);
    } else {
      WholeFragmentRead(crc, all, p, FragmentType(true, end), data[..n]);
    }
    RecordStep(crc, all, p, true, []);
    RecordStep(crc, all, p, false, []);
  }

  lemma EmittedPads(crc: Checksum, all: Bytes, p: nat, data: Bytes)
    requires p <= |all| && AgreesAt(all, p, Emitted(crc, data, p))
    ensures Padded(all, p)
  {
    hide Emit, Physical, Trailer, InBlock, FragmentLength;
    SplitEmit(crc, data, p, true);
    var n := FragmentLength(|data|, InBlock(p));
    var rest := Emitted(crc, data, p)[|Trailer(InBlock(p))|..];
    assert Emitted(crc, data, p) == Trailer(InBlock(p)) + rest;
    AgreesOnParts(all, p, Trailer(InBlock(p)), rest);
  }

  // The record at p, if it is complete, and what follows.
  lemma EmittedReadOn(crc: Checksum, all: Bytes, p: nat, data: Bytes, pending: bool)
    requires p <= |all| && AgreesAt(all, p, Emitted(crc, data, p))
    ensures var next := p + |Emitted(crc, data, p)|;
            ReadOn(crc, all, p, pending) ==
            if next <= |all| then var (rest, drops) := ReadAll(crc, all, next); ([data] + rest, drops) else ([], [])
  {
    hide Emit, InBlock, AgreesAt, ReadRecordAt, ReadOn, ReadAll;
    EmittedRead(crc, all, p, data, true, []);
    assert [] + data == data;
    if pending {
      PendingForgotten(crc, all, p, data);
    }
    var next := p + |Emitted(crc, data, p)|;
    OutcomeReadOn(crc, all, p, pending, data, next);
  }

  lemma OutcomeReadOn(crc: Checksum, all: Bytes, p: nat, pending: bool, data: Bytes, next: nat)
    requires p <= |all|
    requires ReadRecordAt(crc, all, p, pending, []) == if next <= |all| then Outcome(Some(data), next, []) else Outcome(None, |all|, [])
    ensures ReadOn(crc, all, p, pending) ==
            if next <= |all| then var (rest, drops) := ReadAll(crc, all, next); ([data] + rest, drops) else ([], [])
  {
    hide ReadRecordAt, ReadAll;
    if next <= |all| {
      var (rest, drops) := ReadAll(crc, all, next);
      assert [] + drops == drops;
    }
  }

  /** A complete record more. */
  lemma AddedResumes(crc: Checksum, file: Bytes, records: seq<Bytes>, pending: bool, data: Bytes)
    requires Resumes(crc, file, records, pending)
    ensures Resumes(crc, file + Emitted(crc, data, |file|), records + [data], false)
  {
    hide Emit, ReadAll, ReadRecordAt, Padded, Resumes, Emitted;
    var file' := file + Emitted(crc, data, |file|);
    forall all | file' <= all && Padded(all, |file'|)
      ensures var (rest, drops) := ReadOn(crc, all, |file'|, false); ReadAll(crc, all, 0) == (records + [data] + rest, drops)
    {
      Extended(file, Emitted(crc, data, |file|), all);
      HasAgrees(all, |file|, Emitted(crc, data, |file|));
      EmittedPads(crc, all, |file|, data);
      ReadsOn(crc, file, records, pending, all);
      EmittedReadOn(crc, all, |file|, data, pending);
      var (rest, drops) := ReadAll(crc, all, |file'|);
      assert records + ([data] + rest) == records + [data] + rest;
      ReadOnIsReadAll(crc, all, |file'|);
    }
    ResumesIntro(crc, file', records + [data], false);
  }

  lemma ReadOnIsReadAll(crc: Checksum, all: Bytes, p: nat)
    requires p <= |all|
    ensures ReadOn(crc, all, p, false) == ReadAll(crc, all, p)
  {
    hide ReadRecordAt;
  }

  lemma ResumesIntro(crc: Checksum, file: Bytes, records: seq<Bytes>, pending: bool)
    requires pending ==> BlockStart(|file|)
    requires forall all :: file <= all && Padded(all, |file|) ==>
               var (rest, drops) := ReadOn(crc, all, |file|, pending);
               ReadAll(crc, all, 0) == (records + rest, drops)
    ensures Resumes(crc, file, records, pending)
  {
    hide ReadOn, ReadAll, Padded;
  }

  /** A record torn anywhere is not read, and nothing is reported, as long as nothing follows. */
  lemma TornEndReads(crc: Checksum, file: Bytes, records: seq<Bytes>, pending: bool, data: Bytes, k: nat)
    requires Resumes(crc, file, records, pending) && k < |Emitted(crc, data, |file|)|
    ensures ReadAll(crc, file + Emitted(crc, data, |file|)[..k], 0) == (records, [])
  {
    hide Emit, ReadAll, Padded, Resumes, Emitted;
    var all := file + Emitted(crc, data, |file|)[..k];
    assert all[|file|..] == Emitted(crc, data, |file|)[..k];
    assert AgreesAt(all, |file|, Emitted(crc, data, |file|));
    EmittedPads(crc, all, |file|, data);
    ReadsOn(crc, file, records, pending, all);
    EmittedReadOn(crc, all, |file|, data, pending);
    assert records + [] == records;
  }

  // ----- safe cuts -----

  lemma SamePhysical(crc: Checksum, all: Bytes, p: nat, q: nat, inFragment: bool, scratch: Bytes)
    requires p <= |all| && q <= |all| && ReadPhysicalAt(crc, all, p) == ReadPhysicalAt(crc, all, q)
    ensures ReadRecordAt(crc, all, p, inFragment, scratch) == ReadRecordAt(crc, all, q, inFragment, scratch)
  {
    hide ReadPhysicalAt;
    RecordStep(crc, all, p, inFragment, scratch);
    RecordStep(crc, all, q, inFragment, scratch);
  }

  lemma InTrailer(p: nat, k: nat)
    requires 0 < k <= |Trailer(InBlock(p))|
    ensures StartOf(p + k) == StartOf(p) && !BlockStart(p)
    ensures Trailer(InBlock(p)) == Zeros(k) + Zeros(|Trailer(InBlock(p))| - k)
    ensures Trailer(InBlock(p + k)) == Zeros(|Trailer(InBlock(p))| - k)
  {
  }

  lemma TrailerCutSkip(crc: Checksum, all: Bytes, p: nat, k: nat)
    requires 0 < k <= |Trailer(InBlock(p))| && HasBytes(all, p, Zeros(k)) && Padded(all, p + k)
    ensures ReadPhysicalAt(crc, all, p) == ReadPhysicalAt(crc, all, p + k)
    ensures Padded(all, p)
  {
    hide ReadPhysicalAt, InBlock, Trailer;
    InTrailer(p, k);
    TrailerSkipped(crc, all, p);
    TrailerSkipped(crc, all, p + k);
    PaddedFrom(all, p, k, |Trailer(InBlock(p))| - k);
  }

  lemma PaddedFrom(all: Bytes, p: nat, k: nat, rest: nat)
    requires HasBytes(all, p, Zeros(k)) && AgreesAt(all, p + k, Zeros(rest))
    ensures AgreesAt(all, p, Zeros(k) + Zeros(rest))
  {
    var zeros := Zeros(k) + Zeros(rest);
    forall i | 0 <= i < k + rest && p + i < |all| ensures all[p + i] == zeros[i] {
      if i < k {
        assert all[p..p + k][i] == 0;
      } else if p + k + rest <= |all| {
        assert all[p + k..p + k + rest][i - k] == 0;
      } else {
        assert all[p + k..][i - k] == 0;
      }
    }
  }

  // The end of a block with the first bytes of a header, and zeros.
  lemma PaddedHeaderParses(crc: Checksum, buffer: Bytes, j: nat, eof: bool)
    requires 0 < j < HEADER_SIZE <= |buffer| && forall i :: j <= i < |buffer| ==> buffer[i] == 0
    requires j <= 4 || (buffer[4] == 0 && buffer[5] == 0)
    ensures ParseBuffer(crc, buffer, eof) == Outcome(BadRecord, |buffer|, [])
  {
  }

  // A header cut off so near to the end of its block that no other fits behind it.
  lemma PaddedPlaces(length: nat, p: nat, j: nat)
    requires 0 < j < HEADER_SIZE <= BLOCK_SIZE - InBlock(p) < j + HEADER_SIZE && p + j <= length
    ensures |Trailer(InBlock(p))| == 0 && StartOf(p) == p && !BlockStart(p)
    ensures Trailer(InBlock(p + j)) == Zeros(BLOCK_SIZE - InBlock(p) - j) && !BlockStart(p + j)
    ensures var e := BlockEnd(length, p);
            && BlockEnd(length, p + j) == e && e - (p + j) < HEADER_SIZE && p + j <= e <= p + j + |Trailer(InBlock(p + j))|
            && (e - p < HEADER_SIZE ==> e == length)
  {
  }

  lemma PaddedHeaderSkip(crc: Checksum, all: Bytes, p: nat, j: nat)
    requires 0 < j < HEADER_SIZE <= BLOCK_SIZE - InBlock(p) < j + HEADER_SIZE && p + j <= |all| && Padded(all, p + j)
    requires j <= 4 || (all[p + 4] == 0 && (j == 6 ==> all[p + 5] == 0))
    ensures ReadRecordAt(crc, all, p, false, []) == ReadRecordAt(crc, all, p + j, false, [])
  {
    hide ReadPhysicalAt, InBlock, Trailer, BlockEnd, ReadRecordAt, ParseBuffer;
    PaddedPlaces(|all|, p, j);
    var e := BlockEnd(|all|, p);
    ShortRest(crc, all, p + j);
    if e - p < HEADER_SIZE {
      ShortRest(crc, all, p);
      SamePhysical(crc, all, p, p + j, false, []);
    } else {
      ZerosBehind(all, p, j, e);
      LongRest(crc, all, p);
      PaddedHeaderParses(crc, all[p..e], j, AtEndOfFile(all, e));
      RecordStep(crc, all, p, false, []);
      if e == |all| {
        NothingAfterEnd(crc, all);
        RecordStep(crc, all, p + j, false, []);
      } else {
        SamePhysical(crc, all, p + j, e, false, []);
      }
    }
  }

  lemma ZerosBehind(all: Bytes, p: nat, j: nat, e: nat)
    requires p + j <= e <= |all| && e <= p + j + |Trailer(InBlock(p + j))| && Padded(all, p + j)
    ensures forall i :: j <= i < e - p ==> all[p..e][i] == 0
  {
    var t := Trailer(InBlock(p + j));
    forall i | j <= i < e - p ensures all[p..e][i] == 0 {
      assert t[i - j] == 0;
      if p + j + |t| <= |all| {
        assert all[p + j..p + j + |t|][i - j] == t[i - j];
      } else {
        assert all[p + j..][i - j] == t[i - j];
      }
    }
  }

  // A first fragment without data.
  lemma EmptyFirstSkip(crc: Checksum, all: Bytes, p: nat, pending: bool)
    requires InBlock(p) == BLOCK_SIZE - HEADER_SIZE && HasBytes(all, p, Physical(crc, FIRST_TYPE, []))
    ensures ReadRecordAt(crc, all, p, pending, []) == ReadRecordAt(crc, all, p + HEADER_SIZE, true, [])
    ensures BlockStart(p + HEADER_SIZE) && |Trailer(InBlock(p))| == 0
  {
    hide ReadPhysicalAt, Physical, ReadRecordAt;
    WholeFragmentRead(crc, all, p, FIRST_TYPE, []);
    RecordStep(crc, all, p, pending, []);
  }

  // What stands in the file when a record is cut in or right behind its first fragment.
  lemma TornParts(crc: Checksum, all: Bytes, p: nat, data: Bytes, begin: bool, k: nat)
    requires k <= |Emit(crc, data, InBlock(p), begin)| && HasBytes(all, p, Emit(crc, data, InBlock(p), begin)[..k])
    ensures var trailer, n := |Trailer(InBlock(p))|, FragmentLength(|data|, InBlock(p));
            && n <= |data| && FragmentStart(InBlock(p)) + HEADER_SIZE + n <= BLOCK_SIZE
            && (k <= trailer ==> HasBytes(all, p, Zeros(k)))
            && (trailer <= k <= trailer + HEADER_SIZE + n ==>
                  && HasBytes(all, p, Trailer(InBlock(p)))
                  && HasBytes(all, StartOf(p), Physical(crc, FragmentType(begin, |data| == n), data[..n])[..k - trailer]))
            && |Emit(crc, data, InBlock(p), begin)| >= trailer + HEADER_SIZE + n
            && (|data| == n ==> |Emit(crc, data, InBlock(p), begin)| == trailer + HEADER_SIZE + n)
  {
    hide Emit, Physical, InBlock, FragmentLength, FragmentStart;
    SplitEmit(crc, data, p, begin);
    var n := FragmentLength(|data|, InBlock(p));
    var a, chunk := Trailer(InBlock(p)), Physical(crc, FragmentType(begin, |data| == n), data[..n]);
    var rest := if |data| == n then [] else Emit(crc, data[n..], InBlock(StartOf(p) + HEADER_SIZE + n), false);
    if k <= |a| {
      assert (a + chunk + rest)[..k] == Zeros(k);
    }
    hide Trailer;
    if |a| <= k <= |a| + |chunk| {
      CutParts(a, chunk, rest, k);
      HasParts(all, p, a, chunk[..k - |a|]);
    }
  }

  lemma RoomForNothing(left: nat, offset: nat)
    requires offset < BLOCK_SIZE && FragmentLength(left, offset) == 0 < left
    ensures offset == BLOCK_SIZE - HEADER_SIZE && |Trailer(offset)| == 0
  {
  }

  /** Behind a safe cut the reader goes on as if the torn bytes were not there. */
  lemma SafeSkip(crc: Checksum, all: Bytes, p: nat, data: Bytes, k: nat, pending: bool)
    requires k < |Emitted(crc, data, p)| && HasBytes(all, p, Emitted(crc, data, p)[..k]) && Padded(all, p + k)
    requires SafeCut(|data|, p, k) && (pending ==> BlockStart(p))
    ensures ReadRecordAt(crc, all, p, pending, []) == ReadRecordAt(crc, all, p + k, PendingAfter(p, k, pending), [])
    ensures PendingAfter(p, k, pending) ==> BlockStart(p + k)
    ensures Padded(all, p)
  {
    hide Emit, Physical, Trailer, InBlock, FragmentLength, FragmentStart, ReadPhysicalAt, ReadRecordAt, Padded;
    var trailer, n := |Trailer(InBlock(p))|, FragmentLength(|data|, InBlock(p));
    TornParts(crc, all, p, data, true, k);
    if k == 0 {
    } else if k <= trailer {
      TrailerCutSkip(crc, all, p, k);
      InTrailer(p, k);
      SamePhysical(crc, all, p, p + k, false, []);
    } else if k < trailer + HEADER_SIZE {
      NearBlockEnd(p, k);
      HeaderBytes(crc, all, p, FragmentType(true, |data| == n), data[..n], k);
      PaddedPlaces(|all|, p, k);
      PaddedHeaderSkip(crc, all, p, k);
      NoTrailer(all, p);
    } else {
      RoomForNothing(|data|, InBlock(p));
      assert data[..0] == [];
      WholeChunk(crc, all, p);
      EmptyFirstSkip(crc, all, p, pending);
      NoTrailer(all, p);
    }
  }

  lemma WholeChunk(crc: Checksum, all: Bytes, p: nat)
    requires HasBytes(all, p, Physical(crc, FIRST_TYPE, [])[..HEADER_SIZE])
    ensures HasBytes(all, p, Physical(crc, FIRST_TYPE, []))
  {
    hide Physical;
    assert Physical(crc, FIRST_TYPE, [])[..HEADER_SIZE] == Physical(crc, FIRST_TYPE, []);
  }

  lemma NoTrailer(all: Bytes, p: nat)
    requires p <= |all| && |Trailer(InBlock(p))| == 0
    ensures Padded(all, p)
  {
    assert Trailer(InBlock(p)) == [];
  }

  lemma NearBlockEnd(p: nat, k: nat)
    requires |Trailer(InBlock(p))| < k < |Trailer(InBlock(p))| + HEADER_SIZE
    requires BLOCK_SIZE - FragmentStart(InBlock(p)) < k - |Trailer(InBlock(p))| + HEADER_SIZE
    ensures |Trailer(InBlock(p))| == 0 && FragmentStart(InBlock(p)) == InBlock(p)
    ensures HEADER_SIZE <= BLOCK_SIZE - InBlock(p) < k + HEADER_SIZE && !BlockStart(p) && StartOf(p) == p
  {
  }

  lemma HeaderBytes(crc: Checksum, all: Bytes, q: nat, t: Byte, payload: Bytes, j: nat)
    requires |payload| <= 0xffff && j <= HEADER_SIZE && HasBytes(all, q, Physical(crc, t, payload)[..j])
    ensures j > 4 ==> all[q + 4] == |payload| % 256
    ensures j > 5 ==> all[q + 5] == |payload| / 256
    ensures j > 6 ==> all[q + 6] == t
  {
    var chunk := Physical(crc, t, payload);
    assert forall i :: 0 <= i < j ==> all[q..q + j][i] == chunk[..j][i];
    assert j > 4 ==> all[q..q + j][4] == chunk[4];
    assert j > 5 ==> all[q..q + j][5] == chunk[5];
    assert j > 6 ==> all[q..q + j][6] == chunk[6];
  }

  /** A crash in the middle of a record, at a safe cut. */
  lemma CutResumes(crc: Checksum, file: Bytes, records: seq<Bytes>, pending: bool, data: Bytes, k: nat)
    requires Resumes(crc, file, records, pending)
    requires k < |Emitted(crc, data, |file|)| && SafeCut(|data|, |file|, k)
    ensures Resumes(crc, file + Emitted(crc, data, |file|)[..k], records, PendingAfter(|file|, k, pending))
  {
    hide Emit, ReadAll, ReadRecordAt, Padded, Emitted, SafeCut, PendingAfter;
    var file' := file + Emitted(crc, data, |file|)[..k];
    var pending' := PendingAfter(|file|, k, pending);
    assert |file'| == |file| + k;
    forall all | file' <= all && Padded(all, |file'|)
      ensures var (rest, drops) := ReadOn(crc, all, |file'|, pending'); ReadAll(crc, all, 0) == (records + rest, drops)
    {
      Extended(file, Emitted(crc, data, |file|)[..k], all);
      SafeSkip(crc, all, |file|, data, k, pending);
      ReadsOn(crc, file, records, pending, all);
    }
    PaddedAtEnd(file');
    Extended(file, Emitted(crc, data, |file|)[..k], file');
    SafeSkip(crc, file', |file|, data, k, pending);
    ResumesIntro(crc, file', records, pending');
  }

  lemma PaddedAtEnd(all: Bytes)
    ensures Padded(all, |all|)
  {
  }

  // ----- any number of records and crashes -----

  // The bytes of the file after a reopened writer has added the records.
  function Appended(crc: Checksum, file: Bytes, more: seq<Bytes>): Bytes {
    if more == [] then file
    else
      var before := Appended(crc, file, more[..|more| - 1]);
      before + Emitted(crc, more[|more| - 1], |before|)
  }

  lemma {:induction false} AppendedResumes(crc: Checksum, file: Bytes, records: seq<Bytes>, pending: bool, more: seq<Bytes>)
    requires Resumes(crc, file, records, pending)
    ensures Resumes(crc, Appended(crc, file, more), records + more, more == [] && pending)
  {
    hide Emitted, Resumes;
    if more == [] {
      assert records + more == records;
    } else {
      var n := |more| - 1;
      AppendedResumes(crc, file, records, pending, more[..n]);
      AddedResumes(crc, Appended(crc, file, more[..n]), records + more[..n], more[..n] == [] && pending, more[n]);
      assert records + more[..n] + [more[n]] == records + more;
    }
  }

  /** What a writer may go on with reads back as its records, with nothing reported. */
  lemma ResumedReadsBack(crc: Checksum, file: Bytes, records: seq<Bytes>, pending: bool)
    requires Resumes(crc, file, records, pending)
    ensures ReadAll(crc, file, 0) == (records, [])
  {
    hide ReadRecordAt, ReadAll, ReadPhysicalAt, Padded;
    PaddedAtEnd(file);
    ReadsOn(crc, file, records, pending, file);
    EndOfFileRead(crc, file);
    AfterEof(crc, file, |file|, pending, []);
    assert records + [] == records;
  }

  /** Cut anywhere in what was added, the file still reads back as far as records are whole. */
  lemma {:induction false} PartReadsBack(crc: Checksum, file: Bytes, records: seq<Bytes>, pending: bool, more: seq<Bytes>, part: Bytes) returns (m: nat)
    requires Resumes(crc, file, records, pending) && file <= part <= Appended(crc, file, more)
    ensures m <= |more| && ReadAll(crc, part, 0) == (records + more[..m], [])
    ensures |Appended(crc, file, more[..m])| <= |part|
    ensures m < |more| ==> |part| < |Appended(crc, file, more[..m + 1])|
    decreases |more|
  {
    hide Emitted, Resumes, ReadAll;
    if more == [] {
      m := 0;
      assert part == file && records + more[..0] == records;
      ResumedReadsBack(crc, file, records, pending);
    } else {
      var n := |more| - 1;
      var before := Appended(crc, file, more[..n]);
      AppendedResumes(crc, file, records, pending, more[..n]);
      AppendedGrows(crc, file, more[..n]);
      var emitted := Emitted(crc, more[n], |before|);
      assert more[..n + 1] == more;
      if |part| < |before| {
        assert part <= before;
        m := PartReadsBack(crc, file, records, pending, more[..n], part);
        assert more[..n][..m] == more[..m];
        assert m < n ==> more[..n][..m + 1] == more[..m + 1];
      } else if part == before + emitted {
        m := |more|;
        AppendedResumes(crc, file, records, pending, more);
        ResumedReadsBack(crc, part, records + more, false);
        assert more[..m] == more;
      } else {
        m := n;
        CutBehind(before, emitted, part);
        TornEndReads(crc, before, records + more[..n], more[..n] == [] && pending, more[n], |part| - |before|);
      }
    }
  }

  lemma CutBehind(before: Bytes, emitted: Bytes, part: Bytes)
    requires part <= before + emitted && part != before + emitted && |before| <= |part|
    ensures |part| < |before + emitted| && part == before + emitted[..|part| - |before|]
  {
  }

  lemma {:induction false} AppendedGrows(crc: Checksum, file: Bytes, more: seq<Bytes>)
    ensures file <= Appended(crc, file, more)
  {
    hide Emitted;
    if more != [] {
      AppendedGrows(crc, file, more[..|more| - 1]);
    }
  }

  lemma {:induction false} AppendedToNothing(crc: Checksum, records: seq<Bytes>)
    ensures Appended(crc, [], records) == LogBytes(crc, records)
  {
    hide Emit, InBlock;
    if records != [] {
      AppendedToNothing(crc, records[..|records| - 1]);
      var before := LogBytes(crc, records[..|records| - 1]);
      assert Appended(crc, [], records) == before + Emitted(crc, records[|records| - 1], |before|);
    }
  }

  lemma LogResumes(crc: Checksum, records: seq<Bytes>)
    ensures Resumes(crc, LogBytes(crc, records), records, false)
  {
    hide Resumes, Appended, LogBytes;
    EmptyResumes(crc);
    AppendedResumes(crc, [], [], false, records);
    AppendedToNothing(crc, records);
    assert [] + records == records;
  }

  lemma {:induction false} AppendedPart(crc: Checksum, file: Bytes, more: seq<Bytes>, m: nat)
    requires m <= |more|
    ensures Appended(crc, file, more[..m]) <= Appended(crc, file, more)
  {
    hide Emitted;
    if m == |more| {
      assert more[..m] == more;
    } else {
      AppendedPart(crc, file, more[..|more| - 1], m);
      assert more[..|more| - 1][..m] == more[..m];
    }
  }

  // A record is added, or a crash leaves k bytes of it and the file is opened again.
  datatype Step = Add(data: Bytes) | Tear(data: Bytes, k: nat)

  function FileAfter(crc: Checksum, steps: seq<Step>): Bytes {
    if steps == [] then []
    else
      var file, last := FileAfter(crc, steps[..|steps| - 1]), steps[|steps| - 1];
      var emitted := Emitted(crc, last.data, |file|);
      file + if last.Tear? && last.k < |emitted| then emitted[..last.k] else emitted
  }

  function RecordsAfter(crc: Checksum, steps: seq<Step>): seq<Bytes> {
    if steps == [] then []
    else
      var file, last := FileAfter(crc, steps[..|steps| - 1]), steps[|steps| - 1];
      RecordsAfter(crc, steps[..|steps| - 1]) +
      if last.Tear? && last.k < |Emitted(crc, last.data, |file|)| then [] else [last.data]
  }

  // Nothing is torn, or at a safe cut.
  predicate SafeStep(p: nat, crc: Checksum, step: Step) {
    step.Tear? && step.k < |Emitted(crc, step.data, p)| ==> SafeCut(|step.data|, p, step.k)
  }

  ghost predicate SafeSteps(crc: Checksum, steps: seq<Step>) {
    forall i :: 0 <= i < |steps| ==> SafeStep(|FileAfter(crc, steps[..i])|, crc, steps[i])
  }

  lemma {:induction false} StepsResume(crc: Checksum, steps: seq<Step>) returns (pending: bool)
    requires SafeSteps(crc, steps)
    ensures Resumes(crc, FileAfter(crc, steps), RecordsAfter(crc, steps), pending)
  {
    hide Emitted, Resumes, SafeCut;
    if steps == [] {
      EmptyResumes(crc);
      pending := false;
    } else {
      var n := |steps| - 1;
      var init, last := steps[..n], steps[n];
      forall i | 0 <= i < n ensures SafeStep(|FileAfter(crc, init[..i])|, crc, init[i]) {
        assert init[..i] == steps[..i];
      }
      pending := StepsResume(crc, init);
      var file, records := FileAfter(crc, init), RecordsAfter(crc, init);
      if last.Tear? && last.k < |Emitted(crc, last.data, |file|)| {
        CutResumes(crc, file, records, pending, last.data, last.k);
        pending := PendingAfter(|file|, last.k, pending);
        assert records + [] == records;
      } else {
        AddedResumes(crc, file, records, pending, last.data);
        pending := false;
      }
    }
  }

  /** However often a log was torn at safe cuts and gone on with, it reads back as the records
      that were written whole, in order, and nothing is reported. */
  lemma TornLogReadsBack(crc: Checksum, steps: seq<Step>)
    requires SafeSteps(crc, steps)
    ensures ReadAll(crc, FileAfter(crc, steps), 0) == (RecordsAfter(crc, steps), [])
  {
    var pending := StepsResume(crc, steps);
    ResumedReadsBack(crc, FileAfter(crc, steps), RecordsAfter(crc, steps), pending);
  }

  // ----- cuts that leave no trace -----

  // The cut lies between two records: behind the last one, or in the zeros that fill its block.
  ghost predicate CleanCut(crc: Checksum, records: seq<Bytes>, file: Bytes) {
    var log := LogBytes(crc, records);
    log <= file <= log + Trailer(InBlock(|log|))
  }

  /** A writer reopened behind a clean cut goes on as if nothing had happened. */
  lemma AppendToCleanCut(crc: Checksum, records: seq<Bytes>, file: Bytes, more: Bytes)
    requires CleanCut(crc, records, file)
    ensures file + Emit(crc, more, InBlock(|file|), true) == LogBytes(crc, records + [more])
  {
    hide Emit;
    var log := LogBytes(crc, records);
    assert (records + [more])[..|records|] == records;
    if |file| == |log| {
      assert file == log;
    } else {
      PaddedCut(crc, log, file, more);
    }
  }

  lemma PaddedCut(crc: Checksum, log: Bytes, file: Bytes, more: Bytes)
    requires log < file <= log + Trailer(InBlock(|log|))
    ensures file + Emit(crc, more, InBlock(|file|), true) == log + Emit(crc, more, InBlock(|log|), true)
  {
    hide Emit, InBlock, EmittedFrom;
    var offset, k := InBlock(|log|), |file| - |log|;
    assert file == log + Zeros(k) && Trailer(offset) == Zeros(k + |Trailer(offset + k)|);
    assert FragmentStart(offset) == FragmentStart(offset + k) == 0;
    hide Trailer, Zeros;
    StepInBlock(|log|, k);
    LogWriter.BlockEndIsBlockStart(crc, more, true);
    EmitBehindTrailer(crc, more, offset);
    EmitBehindTrailer(crc, more, offset + k);
    PaddedParts(log, k, Trailer(offset + k), EmittedFrom(crc, more, 0));
  }

  lemma PaddedParts(log: Bytes, k: nat, trailer: Bytes, rest: Bytes)
    requires trailer == Zeros(|trailer|)
    ensures log + Zeros(k) + (trailer + rest) == log + (Zeros(k + |trailer|) + rest)
  {
    assert Zeros(k) + trailer == Zeros(k + |trailer|);
  }

  lemma StepInBlock(p: nat, k: nat)
    requires InBlock(p) + k <= BLOCK_SIZE
    ensures InBlock(p + k) == if InBlock(p) + k == BLOCK_SIZE then 0 else InBlock(p) + k
  {
  }

  // What a record adds behind the trailer depends on where its fragment starts only.
  function EmittedFrom(crc: Checksum, data: Bytes, start: nat): Bytes
    requires start + HEADER_SIZE <= BLOCK_SIZE
  {
    var avail := BLOCK_SIZE - start - HEADER_SIZE;
    var n := if |data| < avail then |data| else avail;
    Physical(crc, FragmentType(true, |data| == n), data[..n]) +
    (if |data| == n then [] else Emit(crc, data[n..], start + HEADER_SIZE + n, false))
  }

  lemma EmitBehindTrailer(crc: Checksum, data: Bytes, offset: nat)
    requires offset <= BLOCK_SIZE
    ensures Emit(crc, data, offset, true) == Trailer(offset) + EmittedFrom(crc, data, FragmentStart(offset))
  {
    EmitStep(crc, data, offset, true);
    hide Emit, Physical, Trailer;
  }

  // ----- where a cut lies -----

  // The bytes of one fragment with the trailer before it.
  function FragmentSpan(left: nat, p: nat): nat {
    |Trailer(InBlock(p))| + HEADER_SIZE + FragmentLength(left, InBlock(p))
  }

  // The fragment that is torn: where it starts, whether it is the first, how many bytes of data
  // are in those before it, and how many bytes of it are there.
  datatype Torn = Torn(p: nat, begin: bool, from: nat, k: nat)

  function TornFragment(left: nat, p: nat, begin: bool, k: nat): (t: Torn)
    ensures t.from <= left
    decreases k
  {
    var n := FragmentLength(left, InBlock(p));
    if k < FragmentSpan(left, p) || left == n then Torn(p, begin, 0, k)
    else
      var t := TornFragment(left - n, p + FragmentSpan(left, p), false, k - FragmentSpan(left, p));
      t.(from := n + t.from)
  }

  // One complete fragment that is not the last has been read.
  lemma FragmentPassed(crc: Checksum, all: Bytes, p: nat, data: Bytes, begin: bool, inFragment: bool, scratch: Bytes)
    requires var n := FragmentLength(|data|, InBlock(p));
             n < |data| && HasBytes(all, StartOf(p), Physical(crc, FragmentType(begin, false), data[..n]))
    requires if begin then scratch == [] else inFragment
    ensures var n := FragmentLength(|data|, InBlock(p));
            && p + FragmentSpan(|data|, p) <= |all|
            && ReadRecordAt(crc, all, p, inFragment, scratch) == ReadRecordAt(crc, all, p + FragmentSpan(|data|, p), true, scratch + data[..n])
  {
    hide ReadPhysicalAt, Physical, ReadRecordAt, InBlock, Trailer;
    var n := FragmentLength(|data|, InBlock(p));
    FragmentFits(|data|, p);
    WholeFragmentRead(crc, all, p, FragmentType(begin, false), data[..n]);
    RecordStep(crc, all, p, inFragment, scratch);
    assert begin ==> scratch + data[..n] == data[..n];
  }

  lemma FragmentFits(left: nat, p: nat)
    ensures var n := FragmentLength(left, InBlock(p));
            && n <= left && FragmentStart(InBlock(p)) + HEADER_SIZE + n <= BLOCK_SIZE
            && (n < left ==> BlockStart(p + FragmentSpan(left, p)))
            && (n < left && BlockStart(p) ==> n > 0)
  {
  }

  lemma {:induction false} TornReached(crc: Checksum, all: Bytes, p: nat, data: Bytes, begin: bool, k: nat, inFragment: bool, scratch: Bytes)
    requires k < |Emit(crc, data, InBlock(p), begin)| && HasBytes(all, p, Emit(crc, data, InBlock(p), begin)[..k])
    requires if begin then scratch == [] else inFragment && BlockStart(p)
    ensures var t := TornFragment(|data|, p, begin, k);
            && t.from <= |data| && t.p + t.k == p + k <= |all| && t.k < FragmentSpan(|data| - t.from, t.p)
            && t.k < |Emit(crc, data[t.from..], InBlock(t.p), t.begin)|
            && HasBytes(all, t.p, Emit(crc, data[t.from..], InBlock(t.p), t.begin)[..t.k])
            && ReadRecordAt(crc, all, p, inFragment, scratch) ==
               ReadRecordAt(crc, all, t.p, inFragment || !t.begin, scratch + data[..t.from])
            && (if t.begin then begin && t.p == p && t.from == 0 else BlockStart(t.p))
    decreases k
  {
    hide Emit, Physical, ReadRecordAt, InBlock, Trailer, FragmentLength, FragmentStart, StartOf, BlockStart;
    assert p + k <= |all|;
    hide HasBytes;
    var n, span := FragmentLength(|data|, InBlock(p)), FragmentSpan(|data|, p);
    FragmentFits(|data|, p);
    TornParts(crc, all, p, data, begin, k);
    assert data[0..] == data && scratch + data[..0] == scratch;
    if !(k < span || |data| == n) {
      EmitBehind(crc, all, p, data, begin, k);
      FragmentPassed(crc, all, p, data, begin, inFragment, scratch);
      TornReached(crc, all, p + span, data[n..], false, k - span, true, scratch + data[..n]);
      var t := TornFragment(|data| - n, p + span, false, k - span);
      Regrouped(scratch, data, n, t.from);
    }
  }

  lemma Regrouped(scratch: Bytes, data: Bytes, n: nat, m: nat)
    requires n + m <= |data|
    ensures data[n..][m..] == data[n + m..] && scratch + data[..n] + data[n..][..m] == scratch + data[..n + m]
  {
    assert data[..n + m] == data[..n] + data[n..][..m];
  }

  // The bytes of a record behind its first fragment.
  lemma EmitBehind(crc: Checksum, all: Bytes, p: nat, data: Bytes, begin: bool, k: nat)
    requires FragmentLength(|data|, InBlock(p)) < |data| && FragmentSpan(|data|, p) <= k
    requires k < |Emit(crc, data, InBlock(p), begin)| && HasBytes(all, p, Emit(crc, data, InBlock(p), begin)[..k])
    ensures var n, next := FragmentLength(|data|, InBlock(p)), p + FragmentSpan(|data|, p);
            && n <= |data| && FragmentStart(InBlock(p)) + HEADER_SIZE + n <= BLOCK_SIZE
            && HasBytes(all, StartOf(p), Physical(crc, FragmentType(begin, false), data[..n]))
            && k - FragmentSpan(|data|, p) < |Emit(crc, data[n..], InBlock(next), false)|
            && HasBytes(all, next, Emit(crc, data[n..], InBlock(next), false)[..k - FragmentSpan(|data|, p)])
  {
    hide Emit, Physical, InBlock, Trailer, FragmentLength, FragmentStart;
    SplitEmit(crc, data, p, begin);
    var n, next := FragmentLength(|data|, InBlock(p)), p + FragmentSpan(|data|, p);
    var a, chunk, rest := Trailer(InBlock(p)), Physical(crc, FragmentType(begin, false), data[..n]), Emit(crc, data[n..], InBlock(next), false);
    var j := k - |a| - |chunk|;
    assert (a + chunk + rest)[..k] == a + (chunk + rest[..j]);
    HasParts(all, p, a, chunk + rest[..j]);
    HasParts(all, p + |a|, chunk, rest[..j]);
  }

  /** What is not safe lies in a header with room behind it, in data, or between two fragments
      of which the first has data. */
  lemma UnsafePlaces(left: nat, p: nat, k: nat)
    requires !SafeCut(left, p, k)
    ensures var t := TornFragment(left, p, true, k);
            var j := k - |Trailer(InBlock(p))|;
            if t.begin then j > 0 && (j < HEADER_SIZE && BLOCK_SIZE - FragmentStart(InBlock(p)) < j + HEADER_SIZE ==> j > 4 && FragmentLength(left, InBlock(p)) > 0)
            else t.from > 0 || t.k > 0
  {
    hide InBlock, Trailer, FragmentLength, FragmentStart;
    FragmentFits(left, p);
    var n, span := FragmentLength(left, InBlock(p)), FragmentSpan(left, p);
    if !(k < span || left == n) {
      FragmentFits(left - n, p + span);
    }
  }

  // ----- appending behind a torn record -----

  // The read gives another record than x, none, or a report.
  predicate Fails(o: Outcome<Option<Bytes>>, x: Bytes) {
    o.result != Some(x) || o.drops != []
  }

  lemma FailsUnread(crc: Checksum, file: Bytes, records: seq<Bytes>, pending: bool, all: Bytes, x: Bytes)
    requires Resumes(crc, file, records, pending) && file <= all && Padded(all, |file|)
    requires Fails(ReadRecordAt(crc, all, |file|, pending, []), x)
    ensures forall rest :: ReadAll(crc, all, 0) != (records + ([x] + rest), [])
  {
    hide ReadRecordAt, ReadAll, Padded, Resumes;
    ReadsOn(crc, file, records, pending, all);
    var (read, drops) := ReadOn(crc, all, |file|, pending);
    forall rest ensures ReadAll(crc, all, 0) != (records + ([x] + rest), []) {
      var expected := [x] + rest;
      if records + read == records + expected {
        assert read == expected by {
          assert (records + read)[|records|..] == read && (records + expected)[|records|..] == expected;
        }
        assert read[0] == x;
      }
    }
  }

  // A reader that has bytes of a record never gives an empty one without a report.
  lemma {:induction false} ScratchNeverEmpty(crc: Checksum, all: Bytes, p: nat, scratch: Bytes)
    requires p <= |all| && scratch != []
    ensures Fails(ReadRecordAt(crc, all, p, true, scratch), [])
    decreases |all| - p
  {
    hide ReadPhysicalAt, ReadRecordAt;
    RecordStep(crc, all, p, true, scratch);
    var phys := ReadPhysicalAt(crc, all, p);
    if phys.result.Fragment? && phys.result.t == MIDDLE_TYPE {
      ScratchNeverEmpty(crc, all, phys.next, scratch + phys.result.data);
    }
  }

  // The reader has bytes enough for the fragment at q, and the checksum happens to be theirs.
  predicate TakenForFragment(crc: Checksum, all: Bytes, q: nat, length: nat) {
    q + HEADER_SIZE + length <= |all| && ChecksumMatches(crc, all[q..], length)
  }

  // Bytes in the place of a torn payload are taken for it, or refused.
  predicate TornOutcome(x: Outcome<PhysicalResult>, crc: Checksum, all: Bytes, q: nat, t: Byte, length: nat) {
    if TakenForFragment(crc, all, q, length) then
      x == Outcome(Fragment(t, all[q + HEADER_SIZE..q + HEADER_SIZE + length]), q + HEADER_SIZE + length, [])
    else x.result == Eof || (x.result == BadRecord && x.drops != [])
  }

  // The physical read at a header whose payload is torn and followed by anything.
  lemma TornFragmentRead(crc: Checksum, all: Bytes, p: nat, t: Byte, payload: Bytes)
    requires t != ZERO_TYPE && FragmentStart(InBlock(p)) + HEADER_SIZE + |payload| <= BLOCK_SIZE
    requires HasBytes(all, StartOf(p), Physical(crc, t, payload)[..HEADER_SIZE])
    ensures p <= |all|
    ensures TornOutcome(ReadPhysicalAt(crc, all, p), crc, all, StartOf(p), t, |payload|)
  {
    var q := StartOf(p);
    assert p <= q && q + HEADER_SIZE <= |all| && |payload| <= 0xffff;
    hide *;
    TrailerSkipped(crc, all, p);
    TornBlock(|all|, p, |payload|);
    TornHeaderRead(crc, all, StartOf(p), t, payload);
  }

  lemma TornHeaderRead(crc: Checksum, all: Bytes, q: nat, t: Byte, payload: Bytes)
    requires t != ZERO_TYPE && |payload| <= 0xffff && HasBytes(all, q, Physical(crc, t, payload)[..HEADER_SIZE])
    requires BlockEnd(|all|, q) - q >= HEADER_SIZE
    requires |all| < q + HEADER_SIZE + |payload| ==> !BlockStart(|all|) && BlockEnd(|all|, q) == |all|
    requires q + HEADER_SIZE + |payload| <= |all| ==> q + HEADER_SIZE + |payload| <= BlockEnd(|all|, q)
    ensures TornOutcome(ReadPhysicalAt(crc, all, q), crc, all, q, t, |payload|)
  {
    hide ReadPhysicalAt, Physical, ChecksumMatches, ParseBuffer, InBlock;
    var n, e := |payload|, BlockEnd(|all|, q);
    LongRest(crc, all, q);
    assert all[q..e][..HEADER_SIZE] == all[q..q + HEADER_SIZE];
    TornParses(crc, all[q..e], AtEndOfFile(all, e), t, payload);
    if q + HEADER_SIZE + n <= e {
      SameChecksum(crc, all[q..e], all[q..], n);
      assert all[q..e][HEADER_SIZE..HEADER_SIZE + n] == all[q + HEADER_SIZE..q + HEADER_SIZE + n];
    }
  }

  // A fragment that the file does not hold whole ends the file within a block.
  lemma TornBlock(length: nat, p: nat, n: nat)
    requires FragmentStart(InBlock(p)) + HEADER_SIZE + n <= BLOCK_SIZE && StartOf(p) + HEADER_SIZE <= length
    ensures var q := StartOf(p);
            && BlockEnd(length, q) - q >= HEADER_SIZE
            && (length < q + HEADER_SIZE + n ==> !BlockStart(length) && BlockEnd(length, q) == length)
            && (q + HEADER_SIZE + n <= length ==> q + HEADER_SIZE + n <= BlockEnd(length, q))
  {
    StartInBlock(length, p);
  }

  lemma TornParses(crc: Checksum, buffer: Bytes, eof: bool, t: Byte, payload: Bytes)
    requires t != ZERO_TYPE && |payload| <= 0xffff && HEADER_SIZE <= |buffer|
    requires buffer[..HEADER_SIZE] == Physical(crc, t, payload)[..HEADER_SIZE]
    ensures var n := |payload|;
            ParseBuffer(crc, buffer, eof) ==
            if HEADER_SIZE + n > |buffer| then Outcome(if eof then Eof else BadRecord, |buffer|, if eof then [] else [|buffer|])
            else if ChecksumMatches(crc, buffer, n) then Outcome(Fragment(t, buffer[HEADER_SIZE..HEADER_SIZE + n]), HEADER_SIZE + n, [])
            else Outcome(BadRecord, |buffer|, [|buffer|])
  {
    hide ChecksumMatches, Physical, PayloadLength;
    HeaderParses(crc, buffer, t, payload);
  }

  lemma HeaderParses(crc: Checksum, buffer: Bytes, t: Byte, payload: Bytes)
    requires HEADER_SIZE <= |buffer| && |payload| <= 0xffff
    requires buffer[..HEADER_SIZE] == Physical(crc, t, payload)[..HEADER_SIZE]
    ensures buffer[6] == t && PayloadLength(buffer[4], buffer[5]) == |payload|
  {
    var chunk := Physical(crc, t, payload);
    assert chunk[4] == buffer[..HEADER_SIZE][4] && chunk[5] == buffer[..HEADER_SIZE][5] && chunk[6] == buffer[..HEADER_SIZE][6];
    assert PayloadLength(chunk[4], chunk[5]) == |payload|;
  }

  lemma SameChecksum(crc: Checksum, a: Bytes, b: Bytes, length: nat)
    requires a <= b && HEADER_SIZE + length <= |a|
    ensures ChecksumMatches(crc, a, length) == ChecksumMatches(crc, b, length)
  {
    assert a[..4] == b[..4] && a[6..HEADER_SIZE + length] == b[6..HEADER_SIZE + length];
  }

  // No record of the appended ones is read at a torn fragment with data: not without a checksum
  // that matches by chance, and the empty record not even then.
  lemma TornPayloadFails(crc: Checksum, all: Bytes, p: nat, t: Byte, payload: Bytes, inFragment: bool, scratch: Bytes, x: Bytes)
    requires t != ZERO_TYPE && FragmentStart(InBlock(p)) + HEADER_SIZE + |payload| <= BLOCK_SIZE && payload != []
    requires HasBytes(all, StartOf(p), Physical(crc, t, payload)[..HEADER_SIZE])
    ensures p <= |all|
    ensures x == [] || !TakenForFragment(crc, all, StartOf(p), |payload|) ==> Fails(ReadRecordAt(crc, all, p, inFragment, scratch), x)
  {
    hide ReadPhysicalAt, Physical, ReadRecordAt, InBlock;
    TornFragmentRead(crc, all, p, t, payload);
    RecordStep(crc, all, p, inFragment, scratch);
    var phys := ReadPhysicalAt(crc, all, p);
    if TakenForFragment(crc, all, StartOf(p), |payload|) && x == [] {
      var data := phys.result.data;
      assert |data| == |payload| && data != [] && scratch + data != [];
      if t == FIRST_TYPE {
        ScratchNeverEmpty(crc, all, phys.next, data);
      } else if t == MIDDLE_TYPE && inFragment {
        ScratchNeverEmpty(crc, all, phys.next, scratch + data);
      }
    }
  }

  // A record that starts while the reader has bytes of another one makes it report them.
  lemma BetweenFails(crc: Checksum, all: Bytes, p: nat, x: Bytes, scratch: Bytes, y: Bytes)
    requires HasBytes(all, p, Emitted(crc, x, p)) && scratch != []
    ensures Fails(ReadRecordAt(crc, all, p, true, scratch), y)
  {
    hide Emit, Physical, Trailer, FragmentLength, ReadPhysicalAt, InBlock, ReadRecordAt;
    SplitEmit(crc, x, p, true);
    var n := FragmentLength(|x|, InBlock(p));
    var end := |x| == n;
    var chunk := Physical(crc, FragmentType(true, end), x[..n]);
    var rest := if end then [] else Emit(crc, x[n..], InBlock(StartOf(p) + HEADER_SIZE + n), false);
    HasParts(all, p, Trailer(InBlock(p)) + chunk, rest);
    HasParts(all, p, Trailer(InBlock(p)), chunk);
    WholeFragmentRead(crc, all, p, FragmentType(true, end), x[..n]);
    RecordStep(crc, all, p, true, scratch);
  }

  // A header at the end of a block, cut behind a length that is not zero.
  lemma PaddedLengthFails(crc: Checksum, all: Bytes, p: nat, j: nat, n: nat, x: Bytes)
    requires 4 < j < HEADER_SIZE && HEADER_SIZE + n <= BLOCK_SIZE - InBlock(p) < j + HEADER_SIZE
    requires p - InBlock(p) + BLOCK_SIZE <= |all| && Padded(all, p + j)
    requires 0 < n && all[p + 4] == n && (j == 6 ==> all[p + 5] == 0)
    ensures Fails(ReadRecordAt(crc, all, p, false, []), x)
  {
    hide ReadPhysicalAt, InBlock, Trailer, BlockEnd, ReadRecordAt, ChecksumMatches;
    PaddedPlaces(|all|, p, j);
    var e := BlockEnd(|all|, p);
    WholeBlock(|all|, p);
    ZerosBehind(all, p, j, e);
    LongRest(crc, all, p);
    RecordStep(crc, all, p, false, []);
    var buffer := all[p..e];
    assert buffer[4] == n && buffer[5] == 0 && buffer[6] == 0;
  }

  lemma WholeBlock(length: nat, p: nat)
    requires p - InBlock(p) + BLOCK_SIZE <= length
    ensures p <= length && BlockEnd(length, p) == p - InBlock(p) + BLOCK_SIZE
  {
  }

  // ----- a header cut with room behind it -----

  lemma MaskInvertsUnmask(masked: Word)
    ensures Mask(Unmask(masked)) == masked
  {
    var rot := (masked - MASK_DELTA) % 0x1_0000_0000;
    var high, low := rot / 0x2_0000, rot % 0x2_0000;
    assert Unmask(masked) == high + low * 0x8000 && high < 0x8000;
    assert (high + low * 0x8000) / 0x8000 == low && (high + low * 0x8000) % 0x8000 == high;
    assert (rot + MASK_DELTA) % 0x1_0000_0000 == masked;
  }

  /** Whatever is accepted as a fragment is one, byte for byte. */
  lemma AcceptedIsPhysical(crc: Checksum, buffer: Bytes, eof: bool)
    requires HEADER_SIZE <= |buffer| && ParseBuffer(crc, buffer, eof).result.Fragment?
    ensures var x := ParseBuffer(crc, buffer, eof);
            && |x.result.data| <= 0xffff && x.next == HEADER_SIZE + |x.result.data| && x.drops == []
            && x.result.t == buffer[6] && buffer[..x.next] == Physical(crc, x.result.t, x.result.data)
  {
    hide Mask, Unmask, Fixed32, DecodeFixed32;
    var x := ParseBuffer(crc, buffer, eof);
    var t, data := x.result.t, x.result.data;
    var n := |data|;
    assert buffer[6..HEADER_SIZE + n] == [t] + data;
    MaskInvertsUnmask(DecodeFixed32(buffer[..4]));
    FixedOfDecoded(buffer[..4]);
    assert buffer[..4] == Fixed32(Mask(crc([t] + data)));
    assert n == PayloadLength(buffer[4], buffer[5]);
    LengthBytes(buffer[4], buffer[5]);
    assert buffer[..HEADER_SIZE + n] == buffer[..4] + [buffer[4], buffer[5], buffer[6]] + data;
  }

  lemma LengthBytes(low: Byte, high: Byte)
    ensures PayloadLength(low, high) <= 0xffff
    ensures PayloadLength(low, high) % 256 == low && PayloadLength(low, high) / 256 == high
  {
  }

  // A reader inside a record never gets past a header with type zero unnoticed.
  lemma ZeroTypeFails(crc: Checksum, all: Bytes, p: nat, w: Bytes, x: Bytes)
    requires p <= |all| && p + HEADER_SIZE <= BlockEnd(|all|, p) && all[p + 6] == 0
    ensures Fails(ReadRecordAt(crc, all, p, true, w), x)
  {
    hide ReadPhysicalAt, ReadRecordAt, ChecksumMatches, PayloadLength, InBlock;
    LongRest(crc, all, p);
    RecordStep(crc, all, p, true, w);
    assert all[p..BlockEnd(|all|, p)][6] == 0;
  }

  // Fragments that are not the first: refused outside of a record, added to it inside.
  lemma LaterFragmentFails(crc: Checksum, all: Bytes, p: nat, data: Bytes, x: Bytes)
    requires HasBytes(all, p, Emit(crc, data, InBlock(p), false))
    ensures Fails(ReadRecordAt(crc, all, p, false, []), x)
  {
    hide Emit, Physical, Trailer, FragmentLength, ReadPhysicalAt, InBlock, ReadRecordAt;
    SplitEmit(crc, data, p, false);
    var n := FragmentLength(|data|, InBlock(p));
    var end := |data| == n;
    var chunk := Physical(crc, FragmentType(false, end), data[..n]);
    var rest := if end then [] else Emit(crc, data[n..], InBlock(StartOf(p) + HEADER_SIZE + n), false);
    HasParts(all, p, Trailer(InBlock(p)) + chunk, rest);
    HasParts(all, p, Trailer(InBlock(p)), chunk);
    WholeFragmentRead(crc, all, p, FragmentType(false, end), data[..n]);
    RecordStep(crc, all, p, false, []);
  }

  lemma LaterFragmentsRead(crc: Checksum, all: Bytes, p: nat, data: Bytes, w: Bytes)
    requires HasBytes(all, p, Emit(crc, data, InBlock(p), false))
    ensures ReadRecordAt(crc, all, p, true, w).result == Some(w + data)
  {
    hide Emit, InBlock, ReadRecordAt;
    HasAgrees(all, p, Emit(crc, data, InBlock(p), false));
    EmittedRead(crc, all, p, data, false, w);
  }

  // The bytes of the first fragment of a long record that fit behind a cut header.
  function RoomBehind(q: nat, h: nat): nat
    requires InBlock(q) + h + HEADER_SIZE <= BLOCK_SIZE
  {
    BLOCK_SIZE - InBlock(q) - h - HEADER_SIZE
  }

  lemma LongRecordParts(crc: Checksum, all: Bytes, q: nat, h: nat, z: Bytes)
    requires 0 < h < HEADER_SIZE && InBlock(q) + h + HEADER_SIZE <= BLOCK_SIZE && |z| >= BLOCK_SIZE
    requires HasBytes(all, q + h, Emitted(crc, z, q + h))
    ensures var n, e := RoomBehind(q, h), q - InBlock(q) + BLOCK_SIZE;
            && n <= |z| && e == q + h + HEADER_SIZE + n && BlockEnd(|all|, q) == e < |all| && BlockStart(e)
            && HasBytes(all, q + h, Physical(crc, FIRST_TYPE, z[..n]))
            && HasBytes(all, e, Emit(crc, z[n..], InBlock(e), false))
  {
    hide Emit, Physical;
    var n := RoomBehind(q, h);
    LongPlaces(|z|, q, h);
    SplitEmit(crc, z, q + h, true);
    hide InBlock, Trailer;
    var rest := Emit(crc, z[n..], InBlock(q + h + HEADER_SIZE + n), false);
    assert Emitted(crc, z, q + h) == Physical(crc, FIRST_TYPE, z[..n]) + rest;
    HasParts(all, q + h, Physical(crc, FIRST_TYPE, z[..n]), rest);
    EmitNotEmpty(crc, z[n..], InBlock(q + h + HEADER_SIZE + n));
    LongEnds(|all|, q, h);
  }

  lemma LongPlaces(left: nat, q: nat, h: nat)
    requires 0 < h < HEADER_SIZE && InBlock(q) + h + HEADER_SIZE <= BLOCK_SIZE && left >= BLOCK_SIZE
    ensures InBlock(q + h) == InBlock(q) + h && Trailer(InBlock(q + h)) == [] && StartOf(q + h) == q + h
    ensures FragmentLength(left, InBlock(q + h)) == RoomBehind(q, h) < left
    ensures InBlock(q + h + HEADER_SIZE + RoomBehind(q, h)) == 0
  {
  }

  lemma LongEnds(length: nat, q: nat, h: nat)
    requires InBlock(q) + h + HEADER_SIZE <= BLOCK_SIZE && q + h + HEADER_SIZE + RoomBehind(q, h) < length
    ensures BlockEnd(length, q) == q + h + HEADER_SIZE + RoomBehind(q, h) == q - InBlock(q) + BLOCK_SIZE
  {
  }

  lemma EmitNotEmpty(crc: Checksum, data: Bytes, offset: nat)
    requires offset <= BLOCK_SIZE
    ensures Emit(crc, data, offset, false) != []
  {
    EmitStep(crc, data, offset, false);
    hide Emit;
  }

  // Behind the cut header stands the type of a first fragment, and then zeros.
  lemma LongRecordBytes(crc: Checksum, all: Bytes, q: nat, h: nat, n: nat)
    requires 0 < h && n <= 0xffff && q + h + HEADER_SIZE + n <= |all|
    requires HasBytes(all, q + h, Physical(crc, FIRST_TYPE, Zeros(n)))
    ensures all[q + h + 6] == FIRST_TYPE
    ensures forall i {:trigger all[i]} :: q + h + HEADER_SIZE <= i < q + h + HEADER_SIZE + n ==> all[i] == 0
  {
    var chunk := Physical(crc, FIRST_TYPE, Zeros(n));
    var part := all[q + h..q + h + |chunk|];
    assert part[6] == chunk[6] == FIRST_TYPE;
    forall i {:trigger all[i]} | q + h + HEADER_SIZE <= i < q + h + HEADER_SIZE + n ensures all[i] == 0 {
      assert part[i - q - h] == chunk[i - q - h] == Zeros(n)[i - q - h - HEADER_SIZE];
    }
  }

  // Once a fragment of length m has been taken at the cut header, a long record of zeros is read
  // only if that fragment holds exactly what of it stands in this block.
  lemma LongScratchFails(crc: Checksum, all: Bytes, q: nat, h: nat, z: Bytes, m: nat, w: Bytes)
    requires 0 < h < HEADER_SIZE && InBlock(q) + h + HEADER_SIZE <= BLOCK_SIZE && |z| >= BLOCK_SIZE && z == Zeros(|z|)
    requires HasBytes(all, q + h, Emitted(crc, z, q + h))
    requires HEADER_SIZE + m <= BLOCK_SIZE - InBlock(q) && q + HEADER_SIZE + m <= |all|
    requires |w| >= m && w[|w| - m..] == all[q + HEADER_SIZE..q + HEADER_SIZE + m]
    ensures var n := RoomBehind(q, h);
            Fails(ReadRecordAt(crc, all, q + HEADER_SIZE + m, true, w), z) || (w == Zeros(n) && m < h && n < 2 * HEADER_SIZE)
  {
    hide Emit, Physical, ReadPhysicalAt, ReadRecordAt, InBlock, Emitted, BlockEnd;
    var n, e, p := RoomBehind(q, h), q - InBlock(q) + BLOCK_SIZE, q + HEADER_SIZE + m;
    LongRecordParts(crc, all, q, h, z);
    assert z[..n] == Zeros(n);
    LongRecordBytes(crc, all, q, h, n);
    SameBlockEnd(|all|, q, p);
    if e - p >= HEADER_SIZE {
      ZeroTypeFails(crc, all, p, w, z);
    } else {
      if p < e {
        ShortRest(crc, all, p);
      }
      SamePhysical(crc, all, p, e, true, w);
      LaterFragmentsRead(crc, all, e, z[n..], w);
      if m >= h {
        assert w[|w| - m..][h - 1] == all[q + h + 6];
      }
      if w + z[n..] == z {
        WholeIsZeros(w, z, n);
      }
    }
  }

  lemma SameBlockEnd(length: nat, q: nat, p: nat)
    requires q <= p <= q - InBlock(q) + BLOCK_SIZE <= length
    ensures p < q - InBlock(q) + BLOCK_SIZE ==> BlockEnd(length, p) == q - InBlock(q) + BLOCK_SIZE
  {
  }

  lemma WholeIsZeros(w: Bytes, z: Bytes, n: nat)
    requires n <= |z| && z == Zeros(|z|) && w + z[n..] == z
    ensures w == Zeros(n)
  {
    assert |w| == n;
    assert (w + z[n..])[..n] == w;
  }

  // The long record of zeros is lost, or the torn bytes begin like its own first fragment.
  lemma LongRecordFails(crc: Checksum, all: Bytes, q: nat, h: nat, inFragment: bool, scratch: Bytes, z: Bytes)
    requires 0 < h < HEADER_SIZE && InBlock(q) + h + HEADER_SIZE <= BLOCK_SIZE && z == Zeros(|z|)
    requires |z| >= |scratch| + BLOCK_SIZE && (if inFragment then BlockStart(q) else scratch == [])
    requires HasBytes(all, q + h, Emitted(crc, z, q + h))
    ensures q <= |all|
    ensures Fails(ReadRecordAt(crc, all, q, inFragment, scratch), z) ||
            (RoomBehind(q, h) < h && HasBytes(all, q, Physical(crc, FIRST_TYPE, Zeros(RoomBehind(q, h)))))
  {
    hide Emit, Physical, ReadPhysicalAt, ReadRecordAt, Emitted, ParseBuffer, BlockEnd;
    var n, e := RoomBehind(q, h), q - InBlock(q) + BLOCK_SIZE;
    LongRecordParts(crc, all, q, h, z);
    hide InBlock;
    LongRest(crc, all, q);
    RecordStep(crc, all, q, inFragment, scratch);
    var buffer := all[q..e];
    var x := ParseBuffer(crc, buffer, false);
    if x.result.Fragment? {
      AcceptedIsPhysical(crc, buffer, false);
      var t, data := x.result.t, x.result.data;
      AcceptedBytes(crc, all, q, e, t, data);
      var w := if t == FIRST_TYPE then data else scratch + data;
      if t == FIRST_TYPE || (t == MIDDLE_TYPE && inFragment) {
        assert w[|w| - |data|..] == data;
        LongScratchFails(crc, all, q, h, z, |data|, w);
      }
    } else if x.drops == [] && !inFragment {
      BadTakesAll(crc, buffer, false);
      LaterFragmentFails(crc, all, e, z[n..], z);
    }
  }

  lemma AcceptedBytes(crc: Checksum, all: Bytes, q: nat, e: nat, t: Byte, data: Bytes)
    requires q <= e <= |all| && |data| <= 0xffff
    requires var n := HEADER_SIZE + |data|; n <= e - q && all[q..e][..n] == Physical(crc, t, data)
    ensures HasBytes(all, q, Physical(crc, t, data))
    ensures all[q + HEADER_SIZE..q + HEADER_SIZE + |data|] == data
  {
    var n, chunk := HEADER_SIZE + |data|, Physical(crc, t, data);
    assert chunk[HEADER_SIZE..] == data;
    hide Physical;
    assert all[q..e][..n] == all[q..q + n];
    assert all[q..q + n][HEADER_SIZE..] == all[q + HEADER_SIZE..q + n];
  }

  // The empty record is lost, or the torn bytes begin like its own fragment.
  lemma EmptyRecordFails(crc: Checksum, all: Bytes, q: nat, h: nat)
    requires 0 < h < HEADER_SIZE && InBlock(q) + h + HEADER_SIZE <= BLOCK_SIZE && |all| == q + h + HEADER_SIZE
    ensures Fails(ReadRecordAt(crc, all, q, false, []), []) || HasBytes(all, q, Physical(crc, FULL_TYPE, []))
  {
    hide Physical, ReadPhysicalAt, ReadRecordAt, ParseBuffer;
    ShortEnd(|all|, q, h);
    hide BlockEnd, InBlock;
    LongRest(crc, all, q);
    RecordStep(crc, all, q, false, []);
    var eof := AtEndOfFile(all, |all|);
    var buffer := all[q..|all|];
    var x := ParseBuffer(crc, buffer, eof);
    if x.result.Fragment? {
      AcceptedIsPhysical(crc, buffer, eof);
      AcceptedBytes(crc, all, q, |all|, x.result.t, x.result.data);
      var p := q + x.next;
      ShortRest(crc, all, p);
      AfterEof(crc, all, p, true, x.result.data);
    } else {
      NothingAfterEnd(crc, all);
      assert x.result == BadRecord ==> x.next == |buffer| by {
        BadTakesAll(crc, buffer, eof);
      }
    }
  }

  lemma BadTakesAll(crc: Checksum, buffer: Bytes, eof: bool)
    requires HEADER_SIZE <= |buffer| && !ParseBuffer(crc, buffer, eof).result.Fragment?
    ensures ParseBuffer(crc, buffer, eof).next == |buffer|
  {
  }

  lemma ShortEnd(length: nat, q: nat, h: nat)
    requires 0 < h < HEADER_SIZE && InBlock(q) + h + HEADER_SIZE <= BLOCK_SIZE && length == q + h + HEADER_SIZE
    ensures BlockEnd(length, q) == length
    ensures forall p :: q + HEADER_SIZE <= p <= length ==> BlockEnd(length, p) == length
  {
  }

  // Two sequences of seven bytes that each repeat after the bytes t are the same.
  lemma {:induction false} SamePeriod(t: Bytes, a: Bytes, b: Bytes, i: nat)
    requires 0 < |t| < HEADER_SIZE == |a| == |b| && i < HEADER_SIZE
    requires a == t + a[..HEADER_SIZE - |t|] && b == t + b[..HEADER_SIZE - |t|]
    ensures a[i] == b[i]
  {
    if i >= |t| {
      SamePeriod(t, a, b, i - |t|);
    }
  }

  // The torn bytes cannot begin like both records.
  lemma NotBothHeaders(crc: Checksum, cut: Bytes, q: nat, h: nat, z: Bytes)
    requires 0 < h < HEADER_SIZE && InBlock(q) + h + HEADER_SIZE <= BLOCK_SIZE && |cut| == q + h
    requires z == Zeros(|z|) && |z| >= BLOCK_SIZE
    ensures !(HasBytes(cut + Emitted(crc, [], |cut|), q, Physical(crc, FULL_TYPE, [])) &&
              HasBytes(cut + Emitted(crc, z, |cut|), q, Physical(crc, FIRST_TYPE, Zeros(RoomBehind(q, h)))))
  {
    hide Emit, InBlock, Emitted;
    var all, long := cut + Emitted(crc, [], |cut|), cut + Emitted(crc, z, |cut|);
    var a, n := Physical(crc, FULL_TYPE, []), RoomBehind(q, h);
    var b := Physical(crc, FIRST_TYPE, Zeros(n));
    if HasBytes(all, q, a) && HasBytes(long, q, b) {
      EmptyEmitted(crc, q, h);
      assert z[..n] == Zeros(n) by {
        LongPlaces(|z|, q, h);
      }
      Extended(cut, Emitted(crc, z, |cut|), long);
      LongRecordParts(crc, long, q, h, z);
      Repeats(cut, a, all, q, h);
      Repeats(cut, b, long, q, h);
      SamePeriod(cut[q..], a[..HEADER_SIZE], b[..HEADER_SIZE], 6);
    }
  }

  lemma EmptyEmitted(crc: Checksum, q: nat, h: nat)
    requires 0 < h < HEADER_SIZE && InBlock(q) + h + HEADER_SIZE <= BLOCK_SIZE
    ensures Emitted(crc, [], q + h) == Physical(crc, FULL_TYPE, [])
  {
    hide Emit, Physical;
    EmitStep(crc, [], InBlock(q + h), true);
    assert InBlock(q + h) + HEADER_SIZE <= BLOCK_SIZE && Trailer(InBlock(q + h)) == [];
  }

  // A chunk read over the cut that also stands behind it.
  lemma Repeats(cut: Bytes, a: Bytes, all: Bytes, q: nat, h: nat)
    requires 0 < h < HEADER_SIZE <= |a| && |cut| == q + h
    requires cut <= all && HasBytes(all, q, a) && HasBytes(all, q + h, a)
    ensures a[..HEADER_SIZE] == cut[q..] + a[..HEADER_SIZE][..HEADER_SIZE - h]
  {
    var t := cut[q..];
    forall i | 0 <= i < HEADER_SIZE ensures a[i] == (t + a[..HEADER_SIZE - h])[i] {
      assert all[q..q + |a|][i] == all[q + i];
      if i >= h {
        assert all[q + h..q + h + |a|][i - h] == all[q + i];
      }
    }
  }

  lemma HeaderCutFails(crc: Checksum, cut: Bytes, q: nat, h: nat, inFragment: bool, scratch: Bytes) returns (x: Bytes)
    requires 0 < h < HEADER_SIZE && InBlock(q) + h + HEADER_SIZE <= BLOCK_SIZE && |cut| == q + h
    requires if inFragment then BlockStart(q) else scratch == []
    ensures Fails(ReadRecordAt(crc, cut + Emitted(crc, x, |cut|), q, inFragment, scratch), x)
  {
    hide Emit, Physical, ReadRecordAt, Emitted;
    var z := Zeros(|scratch| + BLOCK_SIZE);
    x := z;
    var all := cut + Emitted(crc, z, |cut|);
    Extended(cut, Emitted(crc, z, |cut|), all);
    LongRecordFails(crc, all, q, h, inFragment, scratch, z);
    if !Fails(ReadRecordAt(crc, all, q, inFragment, scratch), z) {
      x := [];
      EmptyEmitted(crc, q, h);
      NotBothHeaders(crc, cut, q, h, z);
      EmptyRecordFails(crc, cut + Emitted(crc, [], |cut|), q, h);
    }
  }

  // ----- exactly the safe cuts -----

  function Cut(crc: Checksum, file: Bytes, data: Bytes, k: nat): Bytes
    requires k <= |Emitted(crc, data, |file|)|
  {
    file + Emitted(crc, data, |file|)[..k]
  }

  // A record has been added behind a torn one; the reader has come to the torn fragment.
  lemma TornAppended(crc: Checksum, file: Bytes, pending: bool, data: Bytes, k: nat, tail: Bytes)
    requires (pending ==> BlockStart(|file|)) && |Trailer(InBlock(|file|))| <= k < |Emitted(crc, data, |file|)|
    ensures var all, t := Cut(crc, file, data, k) + tail, TornFragment(|data|, |file|, true, k);
            && file <= all && Padded(all, |file|)
            && t.from <= |data| && t.p + t.k == |file| + k && t.k < FragmentSpan(|data| - t.from, t.p)
            && t.k <= |Emit(crc, data[t.from..], InBlock(t.p), t.begin)|
            && HasBytes(all, t.p, Emit(crc, data[t.from..], InBlock(t.p), t.begin)[..t.k])
            && ReadRecordAt(crc, all, |file|, pending, []) == ReadRecordAt(crc, all, t.p, pending || !t.begin, data[..t.from])
            && (if t.begin then t.p == |file| && t.from == 0 else BlockStart(t.p))
  {
    hide Emit, ReadRecordAt, InBlock, Trailer, FragmentSpan, TornFragment;
    var emitted := Emitted(crc, data, |file|);
    var all := Cut(crc, file, data, k) + tail;
    assert file + emitted[..k] <= all;
    Extended(file, emitted[..k], all);
    TornReached(crc, all, |file|, data, true, k, pending, []);
    TornParts(crc, all, |file|, data, true, k);
    assert [] + data[..TornFragment(|data|, |file|, true, k).from] == data[..TornFragment(|data|, |file|, true, k).from];
    TornTrailer(crc, all, |file|, data, k);
  }

  lemma TornTrailer(crc: Checksum, all: Bytes, p: nat, data: Bytes, k: nat)
    requires |Trailer(InBlock(p))| <= k <= |Emitted(crc, data, p)| && HasBytes(all, p, Emitted(crc, data, p)[..k])
    ensures Padded(all, p)
  {
    hide Emit, Physical, InBlock, FragmentLength, Trailer;
    SplitEmit(crc, data, p, true);
    var a, emitted := Trailer(InBlock(p)), Emitted(crc, data, p);
    assert emitted[..k] == a + emitted[|a|..k];
    HasParts(all, p, a, emitted[|a|..k]);
  }

  // The header of the torn fragment is there.
  predicate HeaderThere(t: Torn) {
    t.k >= |Trailer(InBlock(t.p))| + HEADER_SIZE
  }

  lemma TornHeader(crc: Checksum, all: Bytes, data: Bytes, t: Torn)
    requires t.from <= |data| && t.k < FragmentSpan(|data| - t.from, t.p) && HeaderThere(t)
    requires t.k <= |Emit(crc, data[t.from..], InBlock(t.p), t.begin)|
    requires HasBytes(all, t.p, Emit(crc, data[t.from..], InBlock(t.p), t.begin)[..t.k])
    ensures var left := data[t.from..];
            var n := FragmentLength(|left|, InBlock(t.p));
            && 0 < n <= |left| && FragmentStart(InBlock(t.p)) + HEADER_SIZE + n <= BLOCK_SIZE
            && HasBytes(all, StartOf(t.p), Physical(crc, FragmentType(t.begin, |left| == n), left[..n])[..HEADER_SIZE])
  {
    hide Emit, Physical, InBlock, Trailer, FragmentLength, FragmentStart;
    var left := data[t.from..];
    TornParts(crc, all, t.p, left, t.begin, t.k);
    var n, j := FragmentLength(|left|, InBlock(t.p)), t.k - |Trailer(InBlock(t.p))|;
    var chunk := Physical(crc, FragmentType(t.begin, |left| == n), left[..n]);
    assert chunk[..j] == chunk[..HEADER_SIZE] + chunk[HEADER_SIZE..j];
    HasParts(all, StartOf(t.p), chunk[..HEADER_SIZE], chunk[HEADER_SIZE..j]);
  }

  /** Behind a record torn in its data, in whatever fragment, with any bytes appended: the
      complete records are not read with others behind them and no report, unless the checksum
      of the torn fragment happens to be that of the bytes now in its place; and never with the
      empty record as the next one. */
  lemma TornAppendLost(crc: Checksum, file: Bytes, records: seq<Bytes>, pending: bool, data: Bytes, k: nat, tail: Bytes, x: Bytes)
    requires Resumes(crc, file, records, pending) && k < |Emitted(crc, data, |file|)|
    requires HeaderThere(TornFragment(|data|, |file|, true, k))
    requires var t := TornFragment(|data|, |file|, true, k);
             x == [] || !TakenForFragment(crc, Cut(crc, file, data, k) + tail, StartOf(t.p), FragmentLength(|data| - t.from, InBlock(t.p)))
    ensures forall rest :: ReadAll(crc, Cut(crc, file, data, k) + tail, 0) != (records + ([x] + rest), [])
  {
    hide Emit, Physical, ReadRecordAt, InBlock, Trailer, FragmentSpan, FragmentLength, FragmentStart, TornFragment, Resumes, Cut, Padded, TakenForFragment, HeaderThere, ReadAll, StartOf;
    var all, t := Cut(crc, file, data, k) + tail, TornFragment(|data|, |file|, true, k);
    ResumesPending(crc, file, records, pending);
    TornBehindTrailer(|data|, |file|, k);
    TornAppended(crc, file, pending, data, k, tail);
    TornHeader(crc, all, data, t);
    var left := data[t.from..];
    var n := FragmentLength(|left|, InBlock(t.p));
    TornPayloadFails(crc, all, t.p, FragmentType(t.begin, |left| == n), left[..n], pending || !t.begin, data[..t.from], x);
    FailsUnread(crc, file, records, pending, all, x);
  }

  lemma TornBehindTrailer(left: nat, p: nat, k: nat)
    requires var t := TornFragment(left, p, true, k); HeaderThere(t) || t.from > 0
    ensures |Trailer(InBlock(p))| <= k
  {
    hide InBlock, Trailer, FragmentLength;
  }

  lemma ResumesPending(crc: Checksum, file: Bytes, records: seq<Bytes>, pending: bool)
    requires Resumes(crc, file, records, pending)
    ensures pending ==> BlockStart(|file|)
  {
  }

  /** Between two fragments of which the first has data, any appended record makes the reader
      report the torn one. */
  lemma BetweenFragmentsReported(crc: Checksum, file: Bytes, records: seq<Bytes>, pending: bool, data: Bytes, k: nat, x: Bytes, y: Bytes)
    requires Resumes(crc, file, records, pending) && k < |Emitted(crc, data, |file|)|
    requires var t := TornFragment(|data|, |file|, true, k); t.from > 0 && t.k == 0
    ensures var cut := Cut(crc, file, data, k);
            forall rest :: ReadAll(crc, cut + Emitted(crc, x, |cut|), 0) != (records + ([y] + rest), [])
  {
    hide Emit, Physical, ReadRecordAt, InBlock, Trailer, FragmentSpan, TornFragment, Resumes, Cut, Padded, ReadAll, Emitted;
    var t, cut := TornFragment(|data|, |file|, true, k), Cut(crc, file, data, k);
    var all := cut + Emitted(crc, x, |cut|);
    ResumesPending(crc, file, records, pending);
    TornBehindTrailer(|data|, |file|, k);
    TornAppended(crc, file, pending, data, k, Emitted(crc, x, |cut|));
    Extended(cut, Emitted(crc, x, |cut|), all);
    CutLength(crc, file, data, k);
    BetweenFails(crc, all, t.p, x, data[..t.from], y);
    FailsUnread(crc, file, records, pending, all, y);
  }

  lemma CutLength(crc: Checksum, file: Bytes, data: Bytes, k: nat)
    requires k <= |Emitted(crc, data, |file|)|
    ensures |Cut(crc, file, data, k)| == |file| + k
  {
  }

  // A header at the end of a block, cut behind a length that is not zero: any record is lost.
  lemma PaddedHeaderFails(crc: Checksum, file: Bytes, records: seq<Bytes>, data: Bytes, k: nat, x: Bytes)
    requires Resumes(crc, file, records, false) && |Trailer(InBlock(|file|))| < k < |Emitted(crc, data, |file|)|
    requires var j, n := k - |Trailer(InBlock(|file|))|, FragmentLength(|data|, InBlock(|file|));
             4 < j < HEADER_SIZE && 0 < n && BLOCK_SIZE - FragmentStart(InBlock(|file|)) < j + HEADER_SIZE
    ensures var cut := Cut(crc, file, data, k);
            forall rest :: ReadAll(crc, cut + Emitted(crc, x, |cut|), 0) != (records + ([x] + rest), [])
  {
    var p, cut := |file|, Cut(crc, file, data, k);
    var all, n := cut + Emitted(crc, x, |cut|), FragmentLength(|data|, InBlock(p));
    NearBlockEnd(p, k);
    FragmentFits(|data|, p);
    PaddedPlaces(p + k, p, k);
    CutLength(crc, file, data, k);
    hide Emit, Physical, ReadRecordAt, InBlock, Trailer, FragmentLength, FragmentStart, Resumes, Padded, ReadAll, Emitted;
    assert cut == file + Emitted(crc, data, p)[..k] <= all;
    Extended(file, Emitted(crc, data, p)[..k], all);
    Extended(cut, Emitted(crc, x, |cut|), all);
    hide HasBytes, Cut;
    TornPartsOf(crc, all, p, data, k);
    HeaderBytes(crc, all, p, FragmentType(true, |data| == n), data[..n], k);
    HasEmitted(crc, all, p + k, x);
    PaddedLengthFails(crc, all, p, k, n, x);
    TornTrailer(crc, all, p, data, k);
    FailsUnread(crc, file, records, false, all, x);
  }

  lemma TornPartsOf(crc: Checksum, all: Bytes, p: nat, data: Bytes, k: nat)
    requires |Trailer(InBlock(p))| == 0 && k <= HEADER_SIZE && k <= |Emitted(crc, data, p)|
    requires HasBytes(all, p, Emitted(crc, data, p)[..k])
    ensures var n := FragmentLength(|data|, InBlock(p));
            && n <= |data| && FragmentStart(InBlock(p)) + HEADER_SIZE + n <= BLOCK_SIZE
            && HasBytes(all, p, Physical(crc, FragmentType(true, |data| == n), data[..n])[..k])
  {
    hide Emit, Physical, InBlock, Trailer, FragmentLength, FragmentStart;
    TornParts(crc, all, p, data, true, k);
  }

  lemma HasEmitted(crc: Checksum, all: Bytes, p: nat, x: Bytes)
    requires HasBytes(all, p, Emitted(crc, x, p))
    ensures Padded(all, p) && p + |Trailer(InBlock(p))| + HEADER_SIZE <= |all|
  {
    hide Emit, Physical, InBlock, Trailer, FragmentLength, FragmentStart;
    HasAgrees(all, p, Emitted(crc, x, p));
    EmittedPads(crc, all, p, x);
    SplitEmit(crc, x, p, true);
  }

  // A header cut with room behind it: one record or another is lost.
  lemma RoomyHeaderFails(crc: Checksum, file: Bytes, records: seq<Bytes>, pending: bool, data: Bytes, k: nat) returns (x: Bytes)
    requires Resumes(crc, file, records, pending) && |Trailer(InBlock(|file|))| <= k < |Emitted(crc, data, |file|)|
    requires var t := TornFragment(|data|, |file|, true, k);
             var j := t.k - |Trailer(InBlock(t.p))|;
             0 < j < HEADER_SIZE && FragmentStart(InBlock(t.p)) + j + HEADER_SIZE <= BLOCK_SIZE
    ensures var cut := Cut(crc, file, data, k);
            forall rest :: ReadAll(crc, cut + Emitted(crc, x, |cut|), 0) != (records + ([x] + rest), [])
  {
    var t, cut := TornFragment(|data|, |file|, true, k), Cut(crc, file, data, k);
    var q, j, scratch := StartOf(t.p), t.k - |Trailer(InBlock(t.p))|, data[..t.from];
    hide Emit, Physical, ReadRecordAt, FragmentSpan, TornFragment, Resumes, Cut, Padded, ReadAll, Emitted;
    ResumesPending(crc, file, records, pending);
    TornAppended(crc, file, pending, data, k, []);
    CutLength(crc, file, data, k);
    StartInBlock(0, t.p);
    hide InBlock, Trailer;
    x := HeaderCutFails(crc, cut, q, j, pending || !t.begin, scratch);
    var all := cut + Emitted(crc, x, |cut|);
    TornAppended(crc, file, pending, data, k, Emitted(crc, x, |cut|));
    StartReached(crc, all, t.p, pending || !t.begin, scratch);
    FailsUnread(crc, file, records, pending, all, x);
  }

  lemma StartReached(crc: Checksum, all: Bytes, p: nat, inFragment: bool, scratch: Bytes)
    requires StartOf(p) <= |all|
    ensures p <= |all| && ReadRecordAt(crc, all, p, inFragment, scratch) == ReadRecordAt(crc, all, StartOf(p), inFragment, scratch)
  {
    hide ReadPhysicalAt, ReadRecordAt, InBlock, Trailer;
    TrailerSkipped(crc, all, p);
    SamePhysical(crc, all, p, StartOf(p), inFragment, scratch);
  }

  /** Behind any other cut, whatever the checksum function, some appended record is not read. */
  lemma UnsafeCutFails(crc: Checksum, file: Bytes, records: seq<Bytes>, pending: bool, data: Bytes, k: nat) returns (x: Bytes)
    requires Resumes(crc, file, records, pending) && k < |Emitted(crc, data, |file|)| && !SafeCut(|data|, |file|, k)
    ensures var cut := Cut(crc, file, data, k);
            forall rest :: ReadAll(crc, cut + Emitted(crc, x, |cut|), 0) != (records + ([x] + rest), [])
  {
    var t := TornFragment(|data|, |file|, true, k);
    UnsafePlaces(|data|, |file|, k);
    ResumesPending(crc, file, records, pending);
    UnsafeCases(crc, file, data, k, pending);
    hide Emit, FragmentSpan, TornFragment, Resumes, Cut, ReadAll, Emitted, FragmentLength;
    var cut := Cut(crc, file, data, k);
    x := [];
    if t.k == 0 {
      BetweenFragmentsReported(crc, file, records, pending, data, k, [], []);
    } else if HeaderThere(t) {
      TornAppendLost(crc, file, records, pending, data, k, Emitted(crc, [], |cut|), []);
    } else if FragmentStart(InBlock(t.p)) + t.k - |Trailer(InBlock(t.p))| + HEADER_SIZE <= BLOCK_SIZE {
      x := RoomyHeaderFails(crc, file, records, pending, data, k);
    } else {
      PaddedHeaderFails(crc, file, records, data, k, []);
    }
  }

  // The three places where a cut may be, and what is known of each.
  lemma UnsafeCases(crc: Checksum, file: Bytes, data: Bytes, k: nat, pending: bool)
    requires k < |Emitted(crc, data, |file|)| && !SafeCut(|data|, |file|, k) && (pending ==> BlockStart(|file|))
    ensures var t := TornFragment(|data|, |file|, true, k);
            && |Trailer(InBlock(|file|))| < k
            && (t.k == 0 ==> t.from > 0)
            && (t.k > 0 ==> |Trailer(InBlock(t.p))| < t.k)
            && (t.k > 0 && !HeaderThere(t) && FragmentStart(InBlock(t.p)) + t.k - |Trailer(InBlock(t.p))| + HEADER_SIZE > BLOCK_SIZE ==>
                  t.p == |file| && t.k == k && !pending && k - |Trailer(InBlock(|file|))| > 4 && FragmentLength(|data|, InBlock(|file|)) > 0)
  {
    UnsafePlaces(|data|, |file|, k);
    var all := Cut(crc, file, data, k) + [];
    TornAppended(crc, file, pending, data, k, []);
    hide Emit, TornFragment, Emitted, Cut;
  }

  /** The cuts behind which a log may be gone on with, exactly: for every checksum function, what
      is appended always reads back behind the complete records if and only if the cut is safe. */
  lemma SafeCutIff(crc: Checksum, file: Bytes, records: seq<Bytes>, pending: bool, data: Bytes, k: nat)
    requires Resumes(crc, file, records, pending) && k < |Emitted(crc, data, |file|)|
    ensures SafeCut(|data|, |file|, k) <==>
            forall more :: more != [] ==> ReadAll(crc, Appended(crc, Cut(crc, file, data, k), more), 0) == (records + more, [])
  {
    hide Emit, ReadAll, Resumes, Emitted, SafeCut, Appended;
    var cut := Cut(crc, file, data, k);
    if SafeCut(|data|, |file|, k) {
      var pending' := PendingAfter(|file|, k, pending);
      CutResumes(crc, file, records, pending, data, k);
      forall more | more != [] ensures ReadAll(crc, Appended(crc, cut, more), 0) == (records + more, []) {
        AppendedResumes(crc, cut, records, pending', more);
        ResumedReadsBack(crc, Appended(crc, cut, more), records + more, more == [] && pending');
      }
    } else {
      var x := UnsafeCutFails(crc, file, records, pending, data, k);
      AppendedOne(crc, cut, x);
      assert [x] + [] == [x];
    }
  }

  lemma AppendedOne(crc: Checksum, file: Bytes, x: Bytes)
    ensures Appended(crc, file, [x]) == file + Emitted(crc, x, |file|)
  {
    hide Emitted;
    assert [x][..0] == [];
  }

  /** A single record may read back behind an unsafe cut: with a checksum that tells nothing
      apart, one that is equal to the torn header. */
  lemma TornAppendFound()
    ensures var crc: Checksum := _ => 0;
            var header := Physical(crc, FULL_TYPE, [0, 0, 0, 0, 0, 0, 0])[..HEADER_SIZE];
            && header <= LogBytes(crc, [[0, 0, 0, 0, 0, 0, 0]])
            && ReadAll(crc, Appended(crc, header, [header]), 0) == ([header], [])
  {
    var crc: Checksum := _ => 0;
    var data: Bytes := [0, 0, 0, 0, 0, 0, 0];
    var header := Physical(crc, FULL_TYPE, data)[..HEADER_SIZE];
    OneRecord(crc, data);
    AppendedOne(crc, header, header);
    EmitStep(crc, header, HEADER_SIZE, true);
    assert header[..|header|] == header;
    assert Physical(crc, FULL_TYPE, header) == header + header;
    assert Appended(crc, header, [header]) == header + (header + header);
    ThreeHeaders(crc, header);
  }

  lemma ThreeHeaders(crc: Checksum, header: Bytes)
    requires crc == (_ => 0) && header == Fixed32(Mask(0)) + [7, 0] + [FULL_TYPE]
    ensures ReadAll(crc, header + (header + header), 0) == ([header], [])
  {
    HeadersParse(crc, header);
    hide ReadAll, ReadRecordAt, ReadPhysicalAt, ParseBuffer, Fixed32, Mask;
    var all := header + (header + header);
    assert |all| == 21 && BlockEnd(21, 0) == BlockEnd(21, 14) == 21 && all[0..21] == all && all[14..21] == header;
    LongRest(crc, all, 0);
    LongRest(crc, all, 14);
    AfterFragment(crc, all, 0, true, true, header, 14, []);
    AfterEof(crc, all, 14, false, []);
    ReadAllEnds(crc, all, 14);
    assert [] + header == header;
    ReadAllStep(crc, all, 0, header, 14, []);
    assert [header] + [] == [header];
  }

  lemma HeadersParse(crc: Checksum, header: Bytes)
    requires crc == (_ => 0) && header == Fixed32(Mask(0)) + [7, 0] + [FULL_TYPE]
    ensures |header| == HEADER_SIZE
    ensures ParseBuffer(crc, header + (header + header), true) == Outcome(Fragment(FULL_TYPE, header), 14, [])
    ensures ParseBuffer(crc, header, true) == Outcome(Eof, HEADER_SIZE, [])
  {
    var all := header + (header + header);
    assert header[4] == 7 && header[5] == 0 && header[6] == FULL_TYPE;
    assert all[7..14] == header && all[..4] == header[..4] == Fixed32(Mask(0));
    hide Fixed32, Mask, Unmask, DecodeFixed32;
    Fixed32RoundTrip(Mask(0));
    UnmaskInvertsMask(0);
  }

  lemma OneRecord(crc: Checksum, data: Bytes)
    requires |data| < 100
    ensures LogBytes(crc, [data]) == Physical(crc, FULL_TYPE, data)
  {
    assert [data][..0] == [] && LogBytes(crc, []) == [];
    EmitStep(crc, data, 0, true);
    assert data[..|data|] == data;
    assert LogBytes(crc, [data]) == [] + Emit(crc, data, 0, true);
  }
}
