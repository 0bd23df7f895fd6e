/** Opening the store after a crash: what is left of a log is replayed into memtables. */
module Recovery {
  import opened DbFormat
  import opened Coding
  import opened LogFormat
  import opened LogReader
  import opened LogRoundTrip
  import opened LogReuse
  import opened WriteBatch
  import Lsm
  import WriteQueue

  datatype Status = Ok | Failed

  // full says when a memtable has outgrown its buffer, saves whether writing it as a table works.
  datatype Options = Options(paranoid: bool, reuseLogs: bool, full: seq<Added> -> bool, saves: seq<Added> -> bool)

  // The memtables saved as tables, the one being filled, and the largest sequence number seen.
  datatype Progress = Progress(tables: seq<seq<Added>>, mem: Option<seq<Added>>, max: Word64, status: Status)

  function Contents(mem: Option<seq<Added>>): seq<Added> {
    if mem.Some? then mem.value else []
  }

  function Flatten(tables: seq<seq<Added>>): seq<Added> {
    if tables == [] then [] else Flatten(tables[..|tables| - 1]) + tables[|tables| - 1]
  }

  // Everything recovered, in the order of replay.
  function Recovered(r: Progress): seq<Added> {
    Flatten(r.tables) + Contents(r.mem)
  }

  function LastOf(record: Bytes): Word64
    requires |record| >= HEADER
  {
    (SequenceOf(record) + CountOf(record) - 1) % 0x1_0000_0000_0000_0000
  }

  function Max(a: Word64, b: Word64): Word64 {
    if a > b then a else b
  }

  function Saved(o: Options, r: Progress, mem: seq<Added>): Progress {
    if o.saves(mem) then r.(tables := r.tables + [mem], mem := None) else r.(mem := None, status := Failed)
  }

  /** One record of the log.  Unless checks are paranoid, a bad batch counts as far as it goes. */
  function ReplayRecord(o: Options, record: Bytes, r: Progress): Progress {
    if |record| < HEADER then
      if o.paranoid then r.(status := Failed) else r
    else
      var (ops, status) := Iterated(record);
      var mem := Contents(r.mem) + Numbered(SequenceOf(record), ops);
      if status != BatchStatus.Ok && o.paranoid then r.(mem := Some(mem), status := Failed)
      else
        var x := r.(mem := Some(mem), max := Max(LastOf(record), r.max));
        if o.full(mem) then Saved(o, x, mem) else x
  }

  // The log from offset p on; a report of the reader is an error under paranoid checks.
  function Replay(o: Options, crc: Checksum, file: Bytes, p: nat, r: Progress): Progress
    requires p <= |file|
    decreases |file| - p
  {
    if r.status.Failed? then r
    else
      var x := ReadRecordAt(crc, file, p, false, []);
      if o.paranoid && x.drops != [] then r.(status := Failed)
      else
        match x.result
        case None => r
        case Some(record) => Replay(o, crc, file, x.next, ReplayRecord(o, record, r))
  }

  // The last memtable is kept together with the log, or saved.
  function Ended(o: Options, r: Progress, keeps: bool): Progress {
    if r.status.Ok? && keeps then r.(mem := Some(Contents(r.mem)))
    else if r.status.Ok? && r.mem.Some? then Saved(o, r, r.mem.value)
    else r.(mem := None)
  }

  // The log is kept and written on, with the memtable that belongs to it.
  predicate KeepsLog(o: Options, read: Progress, lastLog: bool, reopens: bool) {
    read.status.Ok? && o.reuseLogs && lastLog && reopens && read.tables == []
  }

  // What RecoverLogFile leaves behind.
  function RecoveredLog(o: Options, crc: Checksum, file: Bytes, lastLog: bool, reopens: bool, maxSequence: Word64): Progress {
    var read := Replay(o, crc, file, 0, Progress([], None, maxSequence, Status.Ok));
    Ended(o, read, o.reuseLogs && lastLog && read.tables == [] && reopens)
  }

  /** Nothing that was replayed is dropped at the end: it is in a table, or in the memtable of a
      log that is kept; and recovery succeeds exactly if the reading and the last save did. */
  lemma EndKeepsAll(o: Options, crc: Checksum, file: Bytes, lastLog: bool, reopens: bool, maxSequence: Word64)
    ensures var read := Replay(o, crc, file, 0, Progress([], None, maxSequence, Status.Ok));
            var r := RecoveredLog(o, crc, file, lastLog, reopens, maxSequence);
            && r.max == read.max && read.tables <= r.tables
            && (r.mem.Some? <==> KeepsLog(o, read, lastLog, reopens))
            && (r.status.Ok? ==> read.status.Ok? && Recovered(r) == Recovered(read))
            && (r.status.Ok? <==> read.status.Ok? && (KeepsLog(o, read, lastLog, reopens) || read.mem.None? || o.saves(read.mem.value)))
  {
    hide Replay;
    var read := Replay(o, crc, file, 0, Progress([], None, maxSequence, Status.Ok));
    if read.mem.Some? {
      FlattenMore(read.tables, read.mem.value);
    }
    assert Flatten(read.tables) + [] == Flatten(read.tables);
  }

  lemma FlattenMore(tables: seq<seq<Added>>, mem: seq<Added>)
    ensures Flatten(tables + [mem]) == Flatten(tables) + mem
    ensures Flatten(tables + [mem]) + [] == Flatten(tables) + mem
  {
    assert (tables + [mem])[..|tables|] == tables;
  }

  method RecoverLogFile(o: Options, crc: Checksum, file: Bytes, lastLog: bool, reopens: bool, maxSequence: Word64) returns (r: Progress)
    ensures r == RecoveredLog(o, crc, file, lastLog, reopens, maxSequence)
    ensures var read := Replay(o, crc, file, 0, Progress([], None, maxSequence, Status.Ok));
            && (r.status.Ok? ==> read.status.Ok? && Recovered(r) == Recovered(read))
            && (r.mem.Some? <==> read.status.Ok? && o.reuseLogs && lastLog && reopens && read.tables == [])
            && (read.status.Ok? && read.mem.Some? && r.mem.None? ==>
                  if o.saves(read.mem.value) then r.status.Ok? && r.tables == read.tables + [read.mem.value] else r.status.Failed?)
            && (read.status.Failed? ==> r.status.Failed? && r.tables == read.tables && r.mem.None?)
  {
    EndKeepsAll(o, crc, file, lastLog, reopens, maxSequence);
    var read, compactions := ReadLog(o, crc, file, maxSequence);
    hide Replay, Recovered;
    r := read;
    if r.status.Ok? && o.reuseLogs && lastLog && compactions == 0 && reopens {
      r := r.(mem := Some(Contents(r.mem)));
    } else if r.mem.Some? {
      if r.status.Ok? {
        if o.saves(r.mem.value) {
          r := r.(tables := r.tables + [r.mem.value]);
        } else {
          r := r.(status := Failed);
        }
      }
      r := r.(mem := None);
    }
  }

  // The loop over the records of the log; compactions counts the tables saved meanwhile.
  method ReadLog(o: Options, crc: Checksum, file: Bytes, maxSequence: Word64) returns (r: Progress, compactions: nat)
    ensures r == Replay(o, crc, file, 0, Progress([], None, maxSequence, Status.Ok))
    ensures r.status.Ok? ==> compactions == |r.tables|
  {
    hide ReadRecordAt, Iterated, LastOf, SequenceOf;
    var reader := new Reader(crc, file);
    ghost var goal := Replay(o, crc, file, 0, Progress([], None, maxSequence, Status.Ok));
    var tables, mem, max, status := [], None, maxSequence, Status.Ok;
    compactions := 0;
    while true
      invariant reader.Valid() && reader.crc == crc && reader.file == file
      invariant goal == Replay(o, crc, file, reader.Position(), Progress(tables, mem, max, status))
      invariant status.Ok? ==> compactions == |tables|
      decreases |file| - reader.Position(), status
    {
      if status.Failed? {
        break;
      }
      ghost var p, r0 := reader.Position(), Progress(tables, mem, max, status);
      var reported := reader.drops;
      var record := reader.ReadRecord();
      if o.paranoid && |reader.drops| > |reported| {
        status := Failed;
      }
      if record.None? || status.Failed? {
        assert goal == Progress(tables, mem, max, status);
        r := Progress(tables, mem, max, status);
        break;
      }
      if |record.value| < HEADER {
        if o.paranoid {
          status := Failed;
        }
        assert Progress(tables, mem, max, status) == ReplayRecord(o, record.value, r0);
        continue;
      }
      if mem.None? {
        mem := Some([]);
      }
      var batch := new Batch();
      batch.rep := record.value;
      var adds, inserted := batch.InsertInto();
      mem := Some(mem.value + adds);
      if inserted != BatchStatus.Ok && o.paranoid {
        status := Failed;
        assert Progress(tables, mem, max, status) == ReplayRecord(o, record.value, r0);
        break;
      }
      var last := LastOf(record.value);
      if last > max {
        max := last;
      }
      if o.full(mem.value) {
        compactions := compactions + 1;
        if o.saves(mem.value) {
          tables := tables + [mem.value];
        } else {
          status := Failed;
        }
        mem := None;
      }
      assert Progress(tables, mem, max, status) == ReplayRecord(o, record.value, r0);
    }
    r := Progress(tables, mem, max, status);
  }

  // ----- replaying records that a writer logged -----

  function ReplayAll(o: Options, records: seq<Bytes>, r: Progress): Progress
    decreases records
  {
    if records == [] || r.status.Failed? then r else ReplayAll(o, records[1..], ReplayRecord(o, records[0], r))
  }

  lemma {:induction false} ReplayOfRead(o: Options, crc: Checksum, file: Bytes, p: nat, records: seq<Bytes>, r: Progress)
    requires p <= |file| && ReadAll(crc, file, p) == (records, [])
    ensures Replay(o, crc, file, p, r) == ReplayAll(o, records, r)
    decreases |file| - p
  {
    hide ReadRecordAt, ReplayRecord;
    var x := ReadRecordAt(crc, file, p, false, []);
    if x.result.Some? {
      var (rest, drops) := ReadAll(crc, file, x.next);
      assert records == [x.result.value] + rest && x.drops + drops == [];
      assert records[1..] == rest;
      ReplayOfRead(o, crc, file, x.next, rest, ReplayRecord(o, x.result.value, r));
    }
  }

  datatype BatchRecord = BatchRecord(first: Word64, ops: seq<BatchOp>) {
    // Sequence numbers of a store fit in 56 bits.
    ghost predicate Fits() {
      AllFit(ops) && 0 < first && first + |ops| <= MAX_SEQUENCE
    }

    function Bytes(): Bytes
      requires |ops| <= MAX_COUNT
    {
      Rep(first, ops)
    }
  }

  ghost predicate FittingRecords(batches: seq<BatchRecord>) {
    forall i :: 0 <= i < |batches| ==> batches[i].Fits()
  }

  function Reps(batches: seq<BatchRecord>): seq<Bytes>
    requires forall i :: 0 <= i < |batches| ==> |batches[i].ops| <= MAX_COUNT
  {
    seq(|batches|, i requires 0 <= i < |batches| => batches[i].Bytes())
  }

  function Adds(batches: seq<BatchRecord>): seq<Added> {
    if batches == [] then [] else Numbered(batches[0].first, batches[0].ops) + Adds(batches[1..])
  }

  ghost predicate AlwaysSaves(o: Options) {
    forall mem :: o.saves(mem)
  }

  ghost predicate BelowMax(adds: seq<Added>, max: nat) {
    forall a :: a in adds ==> a.sequence <= max
  }

  lemma RecordReplayed(o: Options, b: BatchRecord, r: Progress)
    requires b.Fits() && r.status.Ok? && BelowMax(Recovered(r), r.max)
    ensures var r' := ReplayRecord(o, b.Bytes(), r);
            && (AlwaysSaves(o) ==> r'.status.Ok?)
            && (r'.status.Ok? ==> Recovered(r') == Recovered(r) + Numbered(b.first, b.ops)
                                  && r'.max >= r.max && BelowMax(Recovered(r'), r'.max))
  {
    hide Iterated, SequenceOf, CountOf, Rep;
    BatchRoundTrip(b.first, b.ops);
    var adds, r' := Numbered(b.first, b.ops), ReplayRecord(o, b.Bytes(), r);
    var mem := Contents(r.mem) + adds;
    assert LastOf(b.Bytes()) == b.first + |b.ops| - 1;
    assert forall a :: a in adds ==> a.sequence <= b.first + |b.ops| - 1;
    hide LastOf, Numbered;
    FlattenMore(r.tables, mem);
    RecoveredMore(r, adds);
    hide Flatten;
    assert r'.status.Ok? ==> Recovered(r') == Flatten(r.tables) + mem;
  }

  lemma RecoveredMore(r: Progress, adds: seq<Added>)
    ensures Flatten(r.tables) + (Contents(r.mem) + adds) == Recovered(r) + adds
  {
  }

  lemma {:induction false} BatchesReplayed(o: Options, batches: seq<BatchRecord>, r: Progress)
    requires FittingRecords(batches) && r.status.Ok? && BelowMax(Recovered(r), r.max)
    ensures var r' := ReplayAll(o, Reps(batches), r);
            && (AlwaysSaves(o) ==> r'.status.Ok?)
            && (r'.status.Ok? ==> Recovered(r') == Recovered(r) + Adds(batches) && r'.max >= r.max && BelowMax(Recovered(r'), r'.max))
    decreases batches
  {
    hide ReplayRecord, Recovered, AlwaysSaves, Numbered;
    if batches == [] {
      assert Recovered(r) + [] == Recovered(r);
    } else {
      var next := ReplayRecord(o, batches[0].Bytes(), r);
      RecordReplayed(o, batches[0], r);
      assert Reps(batches)[1..] == Reps(batches[1..]);
      if next.status.Ok? {
        BatchesReplayed(o, batches[1..], next);
      }
    }
  }

  // Tables are saved when they are full, and the memtable being filled is not.
  ghost predicate SavedWhenFull(o: Options, r: Progress) {
    && (forall t :: t in r.tables ==> o.full(t) && o.saves(t))
    && (r.status.Ok? && r.mem.Some? ==> !o.full(r.mem.value))
  }

  /** On any file, replaying saves a memtable as a table exactly when it has outgrown its buffer. */
  lemma {:induction false} ReplaySavesWhenFull(o: Options, crc: Checksum, file: Bytes, p: nat, r: Progress)
    requires p <= |file| && SavedWhenFull(o, r)
    ensures SavedWhenFull(o, Replay(o, crc, file, p, r))
    decreases |file| - p
  {
    hide ReadRecordAt, Iterated, SequenceOf, CountOf, LastOf, Numbered;
    var x := ReadRecordAt(crc, file, p, false, []);
    if r.status.Ok? && x.result.Some? {
      assert SavedWhenFull(o, ReplayRecord(o, x.result.value, r));
      hide ReplayRecord;
      ReplaySavesWhenFull(o, crc, file, x.next, ReplayRecord(o, x.result.value, r));
    }
  }

  lemma RecordKeepsRecovered(o: Options, record: Bytes, r: Progress)
    requires r.status.Ok?
    ensures ReplayRecord(o, record, r).status.Ok? ==> Recovered(ReplayRecord(o, record, r)) == Recovered(r) + RecordAdds(record)
    ensures !o.paranoid && AlwaysSaves(o) ==> ReplayRecord(o, record, r).status.Ok?
    ensures o.paranoid && ReplayRecord(o, record, r).status.Ok? ==> |record| >= HEADER && Iterated(record).1 == BatchStatus.Ok
  {
    hide Iterated, SequenceOf, CountOf, LastOf, Numbered;
    if |record| >= HEADER {
      var adds := Numbered(SequenceOf(record), Iterated(record).0);
      FlattenMore(r.tables, Contents(r.mem) + adds);
      RecoveredMore(r, adds);
    }
  }

  // The operations of a record that is long enough, up to its first error, under its numbers.
  function RecordAdds(record: Bytes): seq<Added> {
    if |record| < HEADER then [] else Numbered(SequenceOf(record), Iterated(record).0)
  }

  function LogAdds(records: seq<Bytes>): seq<Added> {
    if records == [] then [] else RecordAdds(records[0]) + LogAdds(records[1..])
  }

  // No record is too short or breaks off.
  ghost predicate GoodRecords(records: seq<Bytes>) {
    forall i :: 0 <= i < |records| ==> |records[i]| >= HEADER && Iterated(records[i]).1 == BatchStatus.Ok
  }

  /** On any bytes: without paranoid checks recovery fails only if saving a table does; with them
      it succeeds only on a log without damage; and if it succeeds, it has recovered exactly the
      operations of the records that are read, in order. */
  lemma {:induction false} AnyLogReplays(o: Options, crc: Checksum, file: Bytes, p: nat, r: Progress)
    requires p <= |file| && r.status.Ok?
    ensures var r', (records, drops) := Replay(o, crc, file, p, r), ReadAll(crc, file, p);
            && (!o.paranoid && AlwaysSaves(o) ==> r'.status.Ok?)
            && (r'.status.Ok? ==> Recovered(r') == Recovered(r) + LogAdds(records))
            && (o.paranoid && r'.status.Ok? ==> drops == [] && GoodRecords(records))
    decreases |file| - p
  {
    hide ReadRecordAt, Iterated, Recovered, AlwaysSaves, RecordAdds;
    var x := ReadRecordAt(crc, file, p, false, []);
    assert Recovered(r) + [] == Recovered(r);
    if x.result.Some? {
      var record := x.result.value;
      var (rest, drops) := ReadAll(crc, file, x.next);
      RecordKeepsRecovered(o, record, r);
      hide ReplayRecord;
      var next := ReplayRecord(o, record, r);
      if next.status.Ok? && !(o.paranoid && x.drops != []) {
        AnyLogReplays(o, crc, file, x.next, next);
        assert ([record] + rest)[1..] == rest;
        assert LogAdds([record] + rest) == RecordAdds(record) + LogAdds(rest);
        assert Recovered(r) + RecordAdds(record) + LogAdds(rest) == Recovered(r) + (RecordAdds(record) + LogAdds(rest));
        assert ([record] + rest)[0] == record && forall i :: 0 < i <= |rest| ==> ([record] + rest)[i] == rest[i - 1];
      }
    }
  }

  // Recovery of a log whose records read back as these batches.
  lemma BatchesRecovered(o: Options, crc: Checksum, batches: seq<BatchRecord>, file: Bytes, lastLog: bool, reopens: bool, max: Word64)
    requires FittingRecords(batches) && ReadAll(crc, file, 0) == (Reps(batches), [])
    ensures var r := RecoveredLog(o, crc, file, lastLog, reopens, max);
            && (AlwaysSaves(o) ==> r.status.Ok?)
            && (r.status.Ok? ==> Recovered(r) == Adds(batches) && BelowMax(Recovered(r), r.max) && r.max >= max)
  {
    hide ReadAll, Replay, Ended, Adds, Recovered, RecoveredLog, KeepsLog, BelowMax, ReplayAll, LogBytes;
    var reps := Reps(batches);
    hide AllFit;
    var start := Progress([], None, max, Status.Ok);
    NothingRecovered(max);
    ReplayOfRead(o, crc, file, 0, reps, start);
    BatchesReplayed(o, batches, start);
    EndKeepsAll(o, crc, file, lastLog, reopens, max);
  }

  lemma NothingRecovered(max: Word64)
    ensures var start := Progress([], None, max, Status.Ok); Recovered(start) == [] && BelowMax(Recovered(start), max)
    ensures forall adds: seq<Added> :: [] + adds == adds
  {
  }

  /** After a crash that leaves any prefix of the log, recovery brings back exactly the batches
      that are complete in it, in its tables and the memtable it keeps: none is torn, none is out
      of order, and the last sequence number is beyond all of them.  It fails only if saving a
      table does. */
  lemma CutLogRecovers(o: Options, crc: Checksum, batches: seq<BatchRecord>, file: Bytes, lastLog: bool, reopens: bool, max: Word64) returns (m: nat)
    requires FittingRecords(batches) && file <= LogBytes(crc, Reps(batches))
    ensures m <= |batches| && CutAfter(crc, Reps(batches), file, m)
    ensures var r := RecoveredLog(o, crc, file, lastLog, reopens, max);
            && (AlwaysSaves(o) ==> r.status.Ok?)
            && (r.status.Ok? ==> Recovered(r) == Adds(batches[..m]) && BelowMax(Recovered(r), r.max) && r.max >= max)
  {
    hide LogBytes, ReadAll, RecoveredLog, Recovered, Adds, AlwaysSaves;
    m := SomeCut(crc, Reps(batches), file, |batches|);
    CutLogReadsPrefix(crc, Reps(batches), file, m);
    assert Reps(batches)[..m] == Reps(batches[..m]);
    BatchesRecovered(o, crc, batches[..m], file, lastLog, reopens, max);
  }

  // ----- the log of the write queue -----

  // name gives the bytes of a user key.
  function ByteOp(op: Lsm.Op, name: UserKey -> Bytes): BatchOp {
    match op
    case Put(k, v) => BatchOp.Put(name(k), v)
    case Delete(k) => BatchOp.Delete(name(k))
  }

  function ByteOps(ops: seq<Lsm.Op>, name: UserKey -> Bytes): seq<BatchOp> {
    seq(|ops|, i requires 0 <= i < |ops| => ByteOp(ops[i], name))
  }

  ghost predicate LoggableRecords(log: seq<WriteQueue.Record>, name: UserKey -> Bytes) {
    forall i :: 0 <= i < |log| ==>
      AllFit(ByteOps(log[i].ops, name)) && 0 < log[i].first && log[i].first + |log[i].ops| <= MAX_SEQUENCE
  }

  function ByteRecords(log: seq<WriteQueue.Record>, name: UserKey -> Bytes): seq<BatchRecord>
    requires forall i :: 0 <= i < |log| ==> log[i].first <= MAX_SEQUENCE
  {
    seq(|log|, i requires 0 <= i < |log| => BatchRecord(log[i].first, ByteOps(log[i].ops, name)))
  }

  lemma {:induction false} AddsOfRecord(batches: seq<BatchRecord>, i: nat, j: nat)
    requires i < |batches| && j < |batches[i].ops|
    ensures Added((batches[i].first + j) % 0x1_0000_0000_0000_0000, batches[i].ops[j]) in Adds(batches)
  {
    if i > 0 {
      AddsOfRecord(batches[1..], i - 1, j);
    } else {
      var adds := Numbered(batches[0].first, batches[0].ops);
      assert adds[j] in adds;
    }
  }

  lemma SyncedPartCut(crc: Checksum, records: seq<Bytes>, file: Bytes, m: nat, synced: nat)
    requires synced <= |records| && CutAfter(crc, records, file, m) && |LogBytes(crc, records[..synced])| <= |file|
    ensures synced <= m
  {
    hide LogBytes;
    if m < synced {
      LogBytesPrefix(crc, records, m + 1, synced);
    }
  }

  // A part of the log file with at least everything that was synced.
  ghost predicate LeftAfterCrash(crc: Checksum, log: seq<WriteQueue.Record>, synced: nat, name: UserKey -> Bytes, file: Bytes)
    requires LoggableRecords(log, name)
  {
    var records := Reps(ByteRecords(log, name));
    synced <= |records| && file <= LogBytes(crc, records) && |LogBytes(crc, records[..synced])| <= |file|
  }

  /** What is left of a log after a crash reads back as a part from its start that contains
      everything synced. */
  lemma SurvivingPrefix(crc: Checksum, log: seq<WriteQueue.Record>, synced: nat, name: UserKey -> Bytes, file: Bytes) returns (kept: nat)
    requires LoggableRecords(log, name) && LeftAfterCrash(crc, log, synced, name, file)
    ensures synced <= kept <= |log|
    ensures ReadAll(crc, file, 0) == (Reps(ByteRecords(log[..kept], name)), [])
  {
    hide LogBytes, ReadAll;
    var records := Reps(ByteRecords(log, name));
    kept := SomeCut(crc, records, file, |records|);
    CutLogReadsPrefix(crc, records, file, kept);
    SyncedPartCut(crc, records, file, kept, synced);
    assert records[..kept] == Reps(ByteRecords(log[..kept], name));
  }

  // Writer i of group k asked for a sync and was told that its write succeeded.
  ghost predicate SyncedWriter(s: WriteQueue.QueueState, k: nat, i: nat) {
    && k < |s.groups| && i < |s.groups[k].writers|
    && var w := s.groups[k].writers[i];
       w.sync && w.id in s.results && s.results[w.id] == WriteQueue.Ok
  }

  // What operation j of writer i of the group adds when it is replayed.
  function OpReplayed(g: WriteQueue.Group, i: nat, j: nat, name: UserKey -> Bytes): Added
    requires i < |g.writers| && j < |WriteQueue.BatchOps(g.writers[i])|
  {
    var n := g.first + |WriteQueue.OpsOf(g.writers[..i])| + j;
    Added(n % 0x1_0000_0000_0000_0000, ByteOp(WriteQueue.BatchOps(g.writers[i])[j], name))
  }

  /** Group commit, log and recovery together: every operation of a synced write that was told
      it succeeded comes back under its number, whatever part of the unsynced log a crash took. */
  lemma SyncedWritesSurvive(s: WriteQueue.QueueState, o: Options, crc: Checksum, name: UserKey -> Bytes, file: Bytes, lastLog: bool, reopens: bool, max: Word64, k: nat, i: nat, j: nat)
    requires WriteQueue.Inv(s) && SyncedWriter(s, k, i) && j < |WriteQueue.BatchOps(s.groups[k].writers[i])|
    requires LoggableRecords(s.log, name) && LeftAfterCrash(crc, s.log, s.synced, name, file)
    ensures var r := RecoveredLog(o, crc, file, lastLog, reopens, max);
            (AlwaysSaves(o) ==> r.status.Ok?) && (r.status.Ok? ==> OpReplayed(s.groups[k], i, j, name) in Recovered(r))
  {
    hide LogBytes, RecoveredLog, WriteQueue.Inv, WriteQueue.OpsOf, WriteQueue.BatchOps, AlwaysSaves, Recovered, Adds, Appended, Resumes;
    var records := Reps(ByteRecords(s.log, name));
    hide AllFit;
    AppendedToNothing(crc, records);
    AppendedToNothing(crc, records[..s.synced]);
    EmptyResumes(crc);
    assert Reps([]) == [];
    ReusedLogKeepsSynced(s, o, crc, name, [], [], false, file, lastLog, reopens, max, k, i, j);
  }

  /** The same for a log that an earlier restart has kept behind the records of before: these
      come back too, whatever a second crash takes of what was added. */
  lemma ReusedLogKeepsSynced(s: WriteQueue.QueueState, o: Options, crc: Checksum, name: UserKey -> Bytes, before: seq<BatchRecord>, reused: Bytes, pending: bool, file: Bytes, lastLog: bool, reopens: bool, max: Word64, k: nat, i: nat, j: nat)
    requires WriteQueue.Inv(s) && SyncedWriter(s, k, i) && j < |WriteQueue.BatchOps(s.groups[k].writers[i])|
    requires LoggableRecords(s.log, name) && s.synced <= |s.log|
    requires FittingRecords(before) && Resumes(crc, reused, Reps(before), pending)
    requires var records := Reps(ByteRecords(s.log, name));
             file <= Appended(crc, reused, records) && |Appended(crc, reused, records[..s.synced])| <= |file|
    ensures var r := RecoveredLog(o, crc, file, lastLog, reopens, max);
            && (AlwaysSaves(o) ==> r.status.Ok?)
            && (r.status.Ok? ==> Adds(before) <= Recovered(r) && OpReplayed(s.groups[k], i, j, name) in Recovered(r))
  {
    hide LogBytes, RecoveredLog, WriteQueue.Inv, WriteQueue.OpsOf, WriteQueue.BatchOps, AlwaysSaves, Recovered, Numbered, Adds, Resumes, Appended, AllFit;
    var logged := ByteRecords(s.log, name);
    assert forall n :: 0 <= n < |logged| ==> logged[n].Fits();
    var at, n := SyncedRecord(s, k, i, j);
    var m := ReusedLogRecovers(o, crc, before, logged, reused, pending, file, lastLog, reopens, max, s.synced);
    hide LoggableRecords, FittingRecords, BatchRecord.Fits, SyncedWriter;
    AddsOfRecord(logged[..m], at, n);
    assert logged[..m][at] == logged[at];
  }

  /** A log kept by a restart and added to by the next writer, cut once more: everything it
      held before comes back, then a part from the start of what was added. */
  lemma ReusedLogRecovers(o: Options, crc: Checksum, before: seq<BatchRecord>, more: seq<BatchRecord>, reused: Bytes, pending: bool, file: Bytes, lastLog: bool, reopens: bool, max: Word64, synced: nat) returns (m: nat)
    requires FittingRecords(before) && FittingRecords(more) && synced <= |more|
    requires Resumes(crc, reused, Reps(before), pending)
    requires file <= Appended(crc, reused, Reps(more)) && |Appended(crc, reused, Reps(more)[..synced])| <= |file|
    ensures synced <= m <= |more|
    ensures var r := RecoveredLog(o, crc, file, lastLog, reopens, max);
            (AlwaysSaves(o) ==> r.status.Ok?) && (r.status.Ok? ==> Recovered(r) == Adds(before) + Adds(more[..m]))
  {
    hide LogBytes, RecoveredLog, AlwaysSaves, Recovered, Adds, Resumes, Appended, ReadAll;
    m := ReusedPart(crc, Reps(before), Reps(more), reused, pending, file, synced);
    var kept := before + more[..m];
    assert Reps(before) + Reps(more)[..m] == Reps(kept);
    BatchesRecovered(o, crc, kept, file, lastLog, reopens, max);
    AddsConcat(before, more[..m]);
  }

  lemma ReusedPart(crc: Checksum, before: seq<Bytes>, more: seq<Bytes>, reused: Bytes, pending: bool, file: Bytes, synced: nat) returns (m: nat)
    requires Resumes(crc, reused, before, pending) && synced <= |more|
    requires file <= Appended(crc, reused, more) && |Appended(crc, reused, more[..synced])| <= |file|
    ensures synced <= m <= |more| && ReadAll(crc, file, 0) == (before + more[..m], [])
  {
    hide Resumes, Appended, ReadAll;
    AppendedGrows(crc, reused, more);
    AppendedGrows(crc, reused, more[..synced]);
    m := PartReadsBack(crc, reused, before, pending, more, file);
    if m < synced {
      FewerIsShorter(crc, reused, more, m + 1, synced);
    }
  }

  lemma FewerIsShorter(crc: Checksum, reused: Bytes, more: seq<Bytes>, m: nat, n: nat)
    requires m <= n <= |more|
    ensures |Appended(crc, reused, more[..m])| <= |Appended(crc, reused, more[..n])|
  {
    hide Appended;
    AppendedPart(crc, reused, more[..n], m);
    assert more[..n][..m] == more[..m];
  }

  lemma {:induction false} AddsConcat(a: seq<BatchRecord>, b: seq<BatchRecord>)
    ensures Adds(a + b) == Adds(a) + Adds(b)
  {
    if a == [] {
      assert a + b == b;
    } else {
      assert (a + b)[1..] == a[1..] + b;
      AddsConcat(a[1..], b);
    }
  }

  lemma SyncedRecord(s: WriteQueue.QueueState, k: nat, i: nat, j: nat) returns (at: nat, n: nat)
    requires WriteQueue.Inv(s) && SyncedWriter(s, k, i) && j < |WriteQueue.BatchOps(s.groups[k].writers[i])|
    ensures at < s.synced <= |s.log| && s.log[at].first == s.groups[k].first
    ensures n == |WriteQueue.OpsOf(s.groups[k].writers[..i])| + j < |s.log[at].ops|
    ensures s.log[at].ops[n] == WriteQueue.BatchOps(s.groups[k].writers[i])[j]
  {
    hide WriteQueue.OpsOf, WriteQueue.WorkInv, WriteQueue.GroupsInv, WriteQueue.ResultsInv, WriteQueue.Members, WriteQueue.DistinctIds;
    var g := s.groups[k];
    WriteQueue.AcknowledgedMeansCommitted(s, k, i);
    WriteQueue.OpsOfPart(g.writers, i);
    at := Position(s.log, s.synced, WriteQueue.Record(g.first, WriteQueue.OpsOf(g.writers)));
    n := |WriteQueue.OpsOf(g.writers[..i])| + j;
  }

  lemma Position(log: seq<WriteQueue.Record>, n: nat, r: WriteQueue.Record) returns (at: nat)
    requires n <= |log| && r in log[..n]
    ensures at < n && log[at] == r
  {
    at :| 0 <= at < n && log[..n][at] == r;
  }
}
