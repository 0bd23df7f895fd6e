/** The store together with its logs: every write is logged first, a crash takes away an unsynced
    end of each log, and a restart replays what is left. */
module Durability {
  import opened DbFormat
  import opened Files
  import opened Version
  import opened VersionBuilder
  import opened CompactionInputs
  import opened LevelMoves
  import opened DropRules
  import opened Edits
  import opened Manifest
  import opened Picked
  import opened Lsm
  import opened LsmInvariant
  import opened LsmTheorems
  import opened LsmLimits
  import WriteQueue

  type Record = WriteQueue.Record

  // The operations of the records, in order.
  function OpsIn(records: seq<Record>): seq<Op> {
    if records == [] then [] else OpsIn(records[..|records| - 1]) + records[|records| - 1].ops
  }

  ghost function EntriesIn(records: seq<Record>): set<Entry> {
    if records == [] then {}
    else EntriesIn(records[..|records| - 1]) + BatchEntries(records[|records| - 1].ops, records[|records| - 1].first)
  }

  // flushed is history: the records whose operations are in the files.  oldLog is the log of the
  // immutable memtable, log that of the memtable; the first oldSynced and synced records of them
  // have been synced.  pending is what a restart still has to replay.
  datatype Durable = Durable(store: State, flushed: seq<Record>, oldLog: seq<Record>, oldSynced: nat,
                             log: seq<Record>, synced: nat, pending: seq<Record>)

  datatype Event =
    | Ordinary(step: Action)
    | SyncLog
    | Crash(keptOld: nat, kept: nat, restarted: State)
    | ReplayRecord

  // What an ordinary step does to the logs: a flush makes the old log obsolete.
  function Logged(d: Durable, s: State, a: Action): Durable {
    if a.DoWrite? then d.(store := s, log := d.log + [WriteQueue.Record(d.store.lastSequence + 1, a.batch)])
    else if a.DoSwitch? then d.(store := s, oldLog := d.log, oldSynced := d.synced, log := [], synced := 0)
    else if a.DoFlush? then d.(store := s, flushed := d.flushed + d.oldLog, oldLog := [], oldSynced := 0)
    else d.(store := s)
  }

  // The version comes from the manifest, which is kept or rewritten as a snapshot; snapshots,
  // memtables and the running compaction are gone.
  ghost predicate Restarted(s: State, s': State) {
    && s' == State([], None, Replay(s.manifest), s'.manifest, s'.lastSequence, [], s'.nextFile, None)
    && (s'.manifest == s.manifest || s'.manifest == [SnapshotEdit(s'.levels)])
    && SequencesAtMost(EntriesFrom(s'.levels, 0), s'.lastSequence) && s'.lastSequence <= s.lastSequence
    && NumbersBelow(s'.levels, s'.nextFile) && RecordedBelow(s'.manifest, s'.nextFile)
  }

  function Later(a: nat, b: int): nat {
    if b > a then b else a
  }

  ghost predicate Reinserted(s: State, s': State, r: Record) {
    s' == s.(mem := InsertBatch(s.mem, r.ops, r.first), lastSequence := Later(s.lastSequence, r.first + |r.ops| - 1))
  }

  // While records are pending, memtables may be saved, and nothing else happens.
  ghost predicate Next(d: Durable, d': Durable, e: Event) {
    match e
    case Ordinary(a) =>
      && Step(d.store, d'.store, a) && d' == Logged(d, d'.store, a)
      && (d.pending != [] ==> a.DoSwitch? || a.DoFlush?)
    case SyncLog => d' == d.(synced := |d.log|)
    case Crash(i, j, s) =>
      && d.oldSynced <= i <= |d.oldLog| && d.synced <= j <= |d.log| && Restarted(d.store, s)
      && d' == Durable(s, d.flushed, [], 0, [], 0, d.oldLog[..i] + d.log[..j] + d.pending)
    case ReplayRecord =>
      && d.pending != [] && Reinserted(d.store, d'.store, d.pending[0])
      && d' == d.(store := d'.store, log := d.log + [d.pending[0]], synced := |d.log| + 1, pending := d.pending[1..])
  }

  ghost predicate Start(d: Durable) {
    Init(d.store) && d == Durable(d.store, [], [], 0, [], 0, [])
  }

  // ----- the invariant -----

  // Sequence numbers rise from record to record.
  ghost predicate Ordered(records: seq<Record>) {
    && (forall i :: 0 <= i < |records| ==> 0 < records[i].first && records[i].first + |records[i].ops| <= MAX_SEQUENCE)
    && forall i, j :: 0 <= i < j < |records| ==> records[i].first + |records[i].ops| <= records[j].first
  }

  ghost predicate EndBy(records: seq<Record>, bound: nat) {
    forall i :: 0 <= i < |records| ==> records[i].first + |records[i].ops| - 1 <= bound
  }

  ghost predicate StartAfter(records: seq<Record>, entries: set<Entry>) {
    forall i, e :: 0 <= i < |records| && e in entries ==> e.key.seqno < records[i].first
  }

  function Unflushed(d: Durable): seq<Record> {
    d.oldLog + d.log + d.pending
  }

  /** The memtables hold exactly what their logs say, and every logged record is newer than all
      files. */
  ghost predicate LogInv(d: Durable)
    requires |d.store.levels| == NUM_LEVELS
  {
    && Ordered(Unflushed(d)) && EndBy(d.oldLog + d.log, d.store.lastSequence)
    && StartAfter(Unflushed(d), EntriesFrom(d.store.levels, 0))
    && AsSet(d.store.mem) == EntriesIn(d.log) && ImmEntries(d.store.imm) == EntriesIn(d.oldLog)
    && (d.store.imm.None? ==> d.oldLog == [])
    && d.oldSynced <= |d.oldLog| && d.synced <= |d.log|
  }

  ghost predicate DurableInv(d: Durable) {
    Inv(d.store) && |d.store.levels| == NUM_LEVELS && LogInv(d)
  }

  // ----- the files alone -----

  function FilesOnly(s: State): State {
    s.(mem := [], imm := None)
  }

  lemma FilesOnlyInv(s: State)
    requires Inv(s)
    ensures Inv(FilesOnly(s)) && |s.levels| == NUM_LEVELS
    ensures AllEntries(FilesOnly(s)) == EntriesFrom(s.levels, 0)
  {
    hide VersionInv, RunningInv, EntriesFrom;
    LevelCount(s);
    assert AsSet([]) == {};
  }

  lemma MoveOnFiles(s: State, s': State, a: Action)
    requires Step(s, s', a) && (a.DoMove? || a.DoFinish?)
    ensures Step(FilesOnly(s), FilesOnly(s'), a)
  {
    hide GoodInputs, ApplyEdit;
  }

  lemma MemLess(s: State)
    requires Inv(s)
    ensures Inv(s.(mem := [])) && |s.levels| == NUM_LEVELS
    ensures AllEntries(s.(mem := [])) == ImmEntries(s.imm) + EntriesFrom(s.levels, 0)
  {
    hide VersionInv, RunningInv, EntriesFrom;
    LevelCount(s);
    assert AsSet([]) == {};
  }

  /** Only a flush adds to the files, and it adds exactly the immutable memtable. */
  lemma FilesAfter(s: State, s': State, a: Action)
    requires Inv(s) && Step(s, s', a) && Clear(s, a)
    ensures a.DoFlush? ==> EntriesFrom(s'.levels, 0) == ImmEntries(s.imm) + EntriesFrom(s.levels, 0)
    ensures !a.DoFlush? ==> EntriesFrom(s'.levels, 0) <= EntriesFrom(s.levels, 0)
  {
    hide Inv, AllEntries, EntriesFrom, Read, ClearOfRunning, NoResurrection;
    if a.DoFlush? {
      FlushedFiles(s, s', a);
    } else if a.DoMove? || a.DoFinish? {
      FilesOnlyInv(s);
      MoveOnFiles(s, s', a);
      StepKeepsInv(s, s', a);
      FilesOnlyInv(s');
      if a.DoMove? {
        MoveKeepsInv(FilesOnly(s), FilesOnly(s'), a.moveLevel, a.file);
      } else {
        FinishKeepsInv(FilesOnly(s), FilesOnly(s'));
      }
    } else {
      SameLevels(s, s', a);
    }
  }

  lemma SameLevels(s: State, s': State, a: Action)
    requires Step(s, s', a) && !a.DoFlush? && !a.DoMove? && !a.DoFinish?
    ensures s'.levels == s.levels
  {
    hide GoodInputs, GoodOutputs, InsertBatch;
  }

  lemma FlushedFiles(s: State, s': State, a: Action)
    requires Inv(s) && Step(s, s', a) && Clear(s, a) && a.DoFlush?
    ensures EntriesFrom(s'.levels, 0) == ImmEntries(s.imm) + EntriesFrom(s.levels, 0)
  {
    hide Inv, AllEntries, EntriesFrom, ApplyEdit, ClearDownTo, BuiltFrom, ClearOfRunning;
    MemLess(s);
    FlushKeepsInv(s.(mem := []), s'.(mem := []), a.flushLevel, a.files);
    StepKeepsInv(s, s', a);
    MemLess(s');
    assert s'.imm == None && ImmEntries(s'.imm) == {};
  }

  // ----- records and their entries -----

  lemma {:induction false} EntryInRecord(records: seq<Record>, e: Entry) returns (i: nat)
    requires e in EntriesIn(records)
    ensures i < |records| && records[i].first <= e.key.seqno < records[i].first + |records[i].ops|
  {
    var n := |records| - 1;
    if e in BatchEntries(records[n].ops, records[n].first) {
      BatchSequences(records[n].ops, records[n].first);
      i := n;
    } else {
      i := EntryInRecord(records[..n], e);
    }
  }

  lemma EntriesMore(records: seq<Record>, r: Record)
    ensures EntriesIn(records + [r]) == EntriesIn(records) + BatchEntries(r.ops, r.first)
    ensures OpsIn(records + [r]) == OpsIn(records) + r.ops
  {
    assert (records + [r])[..|records|] == records;
  }

  lemma {:induction false} OpsConcat(a: seq<Record>, b: seq<Record>)
    ensures OpsIn(a + b) == OpsIn(a) + OpsIn(b)
  {
    if b == [] {
      assert a + b == a;
    } else {
      var n := |b| - 1;
      assert (a + b)[..|a + b| - 1] == a + b[..n] && (a + b)[|a + b| - 1] == b[n];
      OpsLast(b);
      OpsLast(a + b);
      hide *;
      OpsConcat(a, b[..n]);
    }
  }

  lemma OpsLast(records: seq<Record>)
    requires records != []
    ensures OpsIn(records) == OpsIn(records[..|records| - 1]) + records[|records| - 1].ops
  {
  }

  // Records that come before others end before the entries of those.
  lemma RecordsBelow(records: seq<Record>, more: seq<Record>)
    requires Ordered(records + more)
    ensures StartAfter(more, EntriesIn(records))
  {
    hide EntriesIn;
    var all := records + more;
    forall j, e | 0 <= j < |more| && e in EntriesIn(records) ensures e.key.seqno < more[j].first {
      var i := EntryInRecord(records, e);
      assert all[i] == records[i] && all[|records| + j] == more[j];
    }
  }

  lemma OrderedParts(a: seq<Record>, b: seq<Record>)
    requires Ordered(a + b)
    ensures Ordered(a) && Ordered(b)
  {
    var all := a + b;
    forall i | 0 <= i < |a| ensures all[i] == a[i] {
    }
    forall i | 0 <= i < |b| ensures all[|a| + i] == b[i] {
    }
  }

  lemma OrderedAppend(records: seq<Record>, r: Record)
    requires r.first > 0 && r.first + |r.ops| <= MAX_SEQUENCE
    requires Ordered(records) && EndBy(records, r.first - 1)
    ensures Ordered(records + [r])
  {
  }

  // Cutting the ends off two logs keeps the order of what is left.
  lemma CutOrdered(old': seq<Record>, i: nat, log: seq<Record>, j: nat, rest: seq<Record>, entries: set<Entry>)
    requires i <= |old'| && j <= |log|
    requires Ordered(old' + log + rest) && StartAfter(old' + log + rest, entries)
    ensures Ordered(old'[..i] + log[..j] + rest) && StartAfter(old'[..i] + log[..j] + rest, entries)
  {
    var all, kept := old' + log + rest, old'[..i] + log[..j] + rest;
    forall k | 0 <= k < |kept| ensures kept[k] == all[Place(|old'|, i, |log|, j, k)] {
    }
    forall k, l | 0 <= k < l < |kept| ensures kept[k].first + |kept[k].ops| <= kept[l].first {
      assert Place(|old'|, i, |log|, j, k) < Place(|old'|, i, |log|, j, l);
      assert kept[k] == all[Place(|old'|, i, |log|, j, k)] && kept[l] == all[Place(|old'|, i, |log|, j, l)];
    }
    forall k, e | 0 <= k < |kept| && e in entries ensures e.key.seqno < kept[k].first {
      assert kept[k] == all[Place(|old'|, i, |log|, j, k)];
    }
  }

  // Where record k of what is left was before.
  function Place(old': nat, i: nat, log: nat, j: nat, k: nat): nat
    requires i <= old' && j <= log
  {
    if k < i then k else if k < i + j then old' + (k - i) else old' + log + (k - i - j)
  }

  // ----- every event keeps the invariant -----

  lemma InsertedRecord(mem: seq<Entry>, r: Record)
    requires GoodTable(mem) && r.first > 0 && SequencesAtMost(AsSet(mem), r.first - 1)
    ensures GoodTable(InsertBatch(mem, r.ops, r.first))
    ensures AsSet(InsertBatch(mem, r.ops, r.first)) == AsSet(mem) + BatchEntries(r.ops, r.first)
  {
    BatchInserted(mem, r.ops, r.first - 1);
  }

  lemma MemFacts(s: State)
    requires Inv(s)
    ensures |s.levels| == NUM_LEVELS && GoodTable(s.mem) && s.lastSequence < MAX_SEQUENCE
    ensures SequencesAtMost(AsSet(s.mem), s.lastSequence) && SequencesAtMost(EntriesFrom(s.levels, 0), s.lastSequence)
  {
    hide VersionInv, RunningInv;
    LevelCount(s);
  }

  lemma WriteLogged(d: Durable, d': Durable, batch: seq<Op>)
    requires DurableInv(d) && Next(d, d', Ordinary(DoWrite(batch)))
    ensures DurableInv(d')
  {
    hide Inv, EntriesIn, EntriesFrom, GoodTable, InsertBatch, BatchEntries, AsSet;
    MemFacts(d.store);
    WriteKeepsInv(d.store, d'.store, batch);
    var r: Record := WriteQueue.Record(d.store.lastSequence + 1, batch);
    InsertedRecord(d.store.mem, r);
    EntriesMore(d.log, r);
    assert d.pending == [] && Unflushed(d) == d.oldLog + d.log;
    OrderedAppend(Unflushed(d), r);
    assert Unflushed(d') == Unflushed(d) + [r] && d'.oldLog + d'.log == d.oldLog + d.log + [r];
  }

  lemma SwitchLogged(d: Durable, d': Durable)
    requires DurableInv(d) && Next(d, d', Ordinary(DoSwitch))
    ensures DurableInv(d')
  {
    hide Inv, EntriesFrom, Ordered, StartAfter;
    SwitchKeepsInv(d.store, d'.store);
    assert Unflushed(d') == Unflushed(d) && d'.oldLog + d'.log == d.oldLog + d.log;
    assert AsSet([]) == {};
  }

  lemma FlushLogged(d: Durable, d': Durable, a: Action)
    requires DurableInv(d) && Next(d, d', Ordinary(a)) && a.DoFlush? && Clear(d.store, a)
    ensures DurableInv(d')
  {
    hide Inv, EntriesIn, EntriesFrom, Ordered, AsSet, ApplyEdit, ClearDownTo, BuiltFrom, ClearOfRunning;
    StepKeepsInv(d.store, d'.store, a);
    FilesAfter(d.store, d'.store, a);
    var rest := d.log + d.pending;
    assert Unflushed(d) == d.oldLog + rest && Unflushed(d') == rest;
    OrderedParts(d.oldLog, rest);
    RecordsBelow(d.oldLog, rest);
    forall i, e | 0 <= i < |rest| && e in EntriesFrom(d'.store.levels, 0) ensures e.key.seqno < rest[i].first {
      assert Unflushed(d)[|d.oldLog| + i] == rest[i];
    }
    forall i | 0 <= i < |d.log| ensures (d.oldLog + d.log)[|d.oldLog| + i] == d.log[i] {
    }
    assert d'.oldLog + d'.log == d.log;
    LevelCount(d'.store);
    NothingIn();
  }

  lemma NothingIn()
    ensures EntriesIn([]) == {} && OpsIn([]) == []
  {
  }

  lemma OtherLogged(d: Durable, d': Durable, a: Action)
    requires DurableInv(d) && Next(d, d', Ordinary(a)) && Clear(d.store, a)
    requires !a.DoWrite? && !a.DoSwitch? && !a.DoFlush?
    ensures DurableInv(d')
  {
    hide Inv, EntriesIn, EntriesFrom, Ordered, AsSet, ApplyEdit, GoodInputs, GoodOutputs;
    StepKeepsInv(d.store, d'.store, a);
    FilesAfter(d.store, d'.store, a);
    LevelCount(d'.store);
    assert d'.store.mem == d.store.mem && d'.store.imm == d.store.imm;
  }

  /** A restart gives a store of which the invariant holds, whether the manifest is kept or
      rewritten. */
  lemma RestartKeepsInv(s: State, s': State)
    requires Inv(s) && Restarted(s, s')
    ensures Inv(s') && s'.levels == s.levels && |s'.levels| == NUM_LEVELS
  {
    hide RunningInv, NumbersBelow, NumbersApart, RecordedBelow, NotRecordedDeeper, ListSorted, EntriesFrom, ValidLevels;
    LevelCount(s);
    if s'.manifest != s.manifest {
      SnapshotKeepsManifestInv(s'.levels, s'.nextFile);
    }
    assert AsSet([]) == {};
    assert VersionInv(s'.levels, s'.manifest, s'.nextFile);
  }

  lemma CrashLogged(d: Durable, d': Durable, e: Event)
    requires DurableInv(d) && Next(d, d', e) && e.Crash?
    ensures DurableInv(d')
  {
    hide Inv, EntriesFrom, Ordered, StartAfter, Restarted;
    RestartKeepsInv(d.store, e.restarted);
    CutOrdered(d.oldLog, e.keptOld, d.log, e.kept, d.pending, EntriesFrom(d.store.levels, 0));
    assert Unflushed(d') == d'.pending;
    CrashForgets(d.store, e.restarted);
    NothingIn();
    assert AsSet([]) == {};
  }

  lemma CrashForgets(s: State, s': State)
    requires Restarted(s, s')
    ensures s'.mem == [] && s'.imm == None
  {
  }

  /** Replaying a logged record into the memtable keeps the invariant. */
  lemma ReinsertKeepsInv(s: State, s': State, r: Record)
    requires Inv(s) && Reinserted(s, s', r) && |s.levels| == NUM_LEVELS
    requires 0 < r.first && r.first + |r.ops| <= MAX_SEQUENCE
    requires forall e :: e in AllEntries(s) ==> e.key.seqno < r.first
    ensures Inv(s')
    ensures AllEntries(s') == AllEntries(s) + BatchEntries(r.ops, r.first)
  {
    hide VersionInv, RunningInv, UniqueVersions, StrictlySorted, EntriesFrom, InsertBatch, BatchEntries, AsSet;
    InsertedRecord(s.mem, r);
    BatchSequences(r.ops, r.first);
  }

  lemma ReplayLogged(d: Durable, d': Durable)
    requires DurableInv(d) && Next(d, d', ReplayRecord)
    ensures DurableInv(d')
  {
    hide Inv, EntriesIn, EntriesFrom, Ordered, GoodTable, InsertBatch, BatchEntries, AsSet;
    var r := d.pending[0];
    LoggedBelowPending(d);
    ReinsertKeepsInv(d.store, d'.store, r);
    MemFacts(d.store);
    InsertedRecord(d.store.mem, r);
    EntriesMore(d.log, r);
    assert Unflushed(d') == Unflushed(d);
    assert d'.oldLog + d'.log == d.oldLog + d.log + [r];
  }

  lemma LoggedBelowPending(d: Durable)
    requires DurableInv(d) && d.pending != []
    ensures var r := d.pending[0];
            && 0 < r.first && r.first + |r.ops| <= MAX_SEQUENCE
            && (forall e :: e in AllEntries(d.store) ==> e.key.seqno < r.first)
            && SequencesAtMost(AsSet(d.store.mem), r.first - 1)
  {
    hide Inv, EntriesIn, EntriesFrom, AsSet;
    assert Unflushed(d)[|d.oldLog + d.log|] == d.pending[0];
    RecordsBelow(d.oldLog + d.log, d.pending);
    EntriesUnion(d.oldLog, d.log);
  }

  lemma {:induction false} EntriesUnion(a: seq<Record>, b: seq<Record>)
    ensures EntriesIn(a + b) == EntriesIn(a) + EntriesIn(b)
  {
    if b == [] {
      assert a + b == a;
    } else {
      EntriesUnion(a, b[..|b| - 1]);
      assert (a + b)[..|a + b| - 1] == a + b[..|b| - 1];
    }
  }

  ghost predicate ClearEvent(d: Durable, e: Event) {
    e.Ordinary? ==> Clear(d.store, e.step)
  }

  /** Writes, flushes, compactions, syncs, crashes and restarts keep the store, its logs and its
      manifest consistent. */
  lemma NextKeepsInv(d: Durable, d': Durable, e: Event)
    requires DurableInv(d) && Next(d, d', e) && ClearEvent(d, e)
    ensures DurableInv(d')
  {
    hide DurableInv, Step, Restarted, Clear;
    match e {
      case Ordinary(a) =>
        if a.DoWrite? {
          WriteLogged(d, d', a.batch);
        } else if a.DoSwitch? {
          SwitchLogged(d, d');
        } else if a.DoFlush? {
          FlushLogged(d, d', a);
        } else {
          OtherLogged(d, d', a);
        }
      case SyncLog => SyncLogged(d, d');
      case Crash(i, j, s) => CrashLogged(d, d', e);
      case ReplayRecord => ReplayLogged(d, d');
    }
  }

  lemma SyncLogged(d: Durable, d': Durable)
    requires DurableInv(d) && Next(d, d', SyncLog)
    ensures DurableInv(d')
  {
    hide Inv, Ordered, StartAfter, EntriesIn;
    assert Unflushed(d') == Unflushed(d);
  }

  // ----- reads -----

  // Reading the flat set of entries after more records: their operations decide.
  lemma {:induction false} ReadOverRecords(entries: set<Entry>, records: seq<Record>, low: nat, high: nat, user: UserKey)
    requires UniqueVersions(entries) && SequencesAtMost(entries, low) && low <= high
    requires Ordered(records) && EndBy(records, high) && forall i :: 0 <= i < |records| ==> low < records[i].first
    ensures UniqueVersions(entries + EntriesIn(records)) && SequencesAtMost(entries + EntriesIn(records), high)
    ensures Read(entries + EntriesIn(records), user, high) == BatchOutcome(OpsIn(records), user, Read(entries, user, low))
  {
    hide Read, UniqueVersions, BatchEntries, Ordered;
    if records == [] {
      assert entries + {} == entries;
      SameReadLater(entries, user, low, high);
    } else {
      var n := |records| - 1;
      var init, last := records[..n], records[n];
      assert records == init + [last];
      LastRecord(init, last);
      ReadOverRecords(entries, init, low, Below(low, last.first), user);
      ReadOneRecord(entries + EntriesIn(init), last, high, user);
      assert entries + EntriesIn(records) == entries + EntriesIn(init) + BatchEntries(last.ops, last.first);
      OutcomeOver(OpsIn(init), last.ops, user, Read(entries, user, low));
    }
  }

  // A bound for what comes before first.
  function Below(low: nat, first: nat): nat {
    if first > 0 then first - 1 else low
  }

  lemma LastRecord(init: seq<Record>, last: Record)
    requires Ordered(init + [last])
    ensures Ordered(init) && last.first > 0 && EndBy(init, last.first - 1) && last.first + |last.ops| <= MAX_SEQUENCE
  {
    var all := init + [last];
    assert all[|init|] == last;
    forall i | 0 <= i < |init| ensures all[i] == init[i] {
    }
  }

  lemma ReadOneRecord(entries: set<Entry>, r: Record, high: nat, user: UserKey)
    requires r.first > 0 && UniqueVersions(entries) && SequencesAtMost(entries, r.first - 1) && r.first + |r.ops| - 1 <= high
    ensures UniqueVersions(entries + BatchEntries(r.ops, r.first))
    ensures SequencesAtMost(entries + BatchEntries(r.ops, r.first), high)
    ensures Read(entries + BatchEntries(r.ops, r.first), user, high) == BatchOutcome(r.ops, user, Read(entries, user, r.first - 1))
  {
    hide Read, UniqueVersions, BatchEntries, BatchOutcome;
    var after := entries + BatchEntries(r.ops, r.first);
    ReadAfterBatch(entries, r.ops, r.first - 1, user);
    SameReadLater(after, user, r.first + |r.ops| - 1, high);
  }

  lemma SameReadLater(entries: set<Entry>, user: UserKey, low: nat, high: nat)
    requires UniqueVersions(entries) && SequencesAtMost(entries, low) && low <= high
    ensures Read(entries, user, low) == Read(entries, user, high)
  {
    hide Read, UniqueVersions;
    SameUpTo(entries, user, low, high);
  }

  lemma {:induction false} OutcomeOver(a: seq<Op>, b: seq<Op>, user: UserKey, before: Option<Bytes>)
    ensures BatchOutcome(a + b, user, before) == BatchOutcome(b, user, BatchOutcome(a, user, before))
    decreases b
  {
    if b == [] {
      assert a + b == a;
    } else {
      OutcomeOver(a, b[..|b| - 1], user, before);
      assert (a + b)[..|a + b| - 1] == a + b[..|b| - 1];
    }
  }

  // The files read as the flushed records say.
  ghost predicate FilesView(d: Durable, user: UserKey)
    requires |d.store.levels| == NUM_LEVELS
  {
    Read(EntriesFrom(d.store.levels, 0), user, d.store.lastSequence) == BatchOutcome(OpsIn(d.flushed), user, None)
  }

  // All records that count, oldest first.
  function History(d: Durable): seq<Record> {
    d.flushed + d.oldLog + d.log
  }

  lemma FilesUniqueUpTo(s: State)
    requires Inv(s)
    ensures |s.levels| == NUM_LEVELS && UniqueVersions(EntriesFrom(s.levels, 0))
    ensures SequencesAtMost(EntriesFrom(s.levels, 0), s.lastSequence)
  {
    hide VersionInv, RunningInv, EntriesFrom, UniqueVersions;
    LevelCount(s);
    FilesUnique(s.levels, s.manifest, s.nextFile);
  }

  // A bound below the unflushed records and not below the files.
  ghost predicate Between(entries: set<Entry>, records: seq<Record>, low: nat) {
    SequencesAtMost(entries, low) && forall i :: 0 <= i < |records| ==> low < records[i].first
  }

  lemma SomeBetween(entries: set<Entry>, records: seq<Record>, high: nat) returns (low: nat)
    requires StartAfter(records, entries) && Ordered(records) && SequencesAtMost(entries, high)
    ensures low <= high && Between(entries, records, low)
  {
    if records == [] || high < records[0].first {
      low := high;
    } else {
      low := records[0].first - 1;
    }
  }

  /** The latest read is what the flushed records and the two logs say, one operation after the
      other. */
  lemma LatestFromView(d: Durable, user: UserKey)
    requires DurableInv(d) && FilesView(d, user)
    ensures Latest(d.store, user) == BatchOutcome(OpsIn(History(d)), user, None)
  {
    hide Inv, Read, UniqueVersions, EntriesFrom, EntriesIn, OpsIn, BatchOutcome, Ordered, SequencesAtMost, StartAfter, EndBy;
    var files, logs := EntriesFrom(d.store.levels, 0), d.oldLog + d.log;
    FilesUniqueUpTo(d.store);
    LogsAlone(d);
    var low := SomeBetween(files, logs, d.store.lastSequence);
    ReadOverRecords(files, logs, low, d.store.lastSequence, user);
    SameReadLater(files, user, low, d.store.lastSequence);
    EntriesUnion(d.oldLog, d.log);
    assert AllEntries(d.store) == files + EntriesIn(logs);
    assert History(d) == d.flushed + logs;
    OpsConcat(d.flushed, logs);
    OutcomeOver(OpsIn(d.flushed), OpsIn(logs), user, None);
  }

  lemma LogsAlone(d: Durable)
    requires DurableInv(d)
    ensures var logs := d.oldLog + d.log;
            Ordered(logs) && EndBy(logs, d.store.lastSequence) && StartAfter(logs, EntriesFrom(d.store.levels, 0))
  {
    hide Inv, EntriesIn, EntriesFrom;
    var logs := d.oldLog + d.log;
    OrderedParts(logs, d.pending);
    forall i | 0 <= i < |logs| ensures Unflushed(d)[i] == logs[i] {
    }
  }

  ghost predicate SafeEvent(d: Durable, e: Event) {
    && ClearEvent(d, e)
    && (e.Ordinary? && e.step.DoFinish? ==> |d.store.levels| == NUM_LEVELS && NoResurrection(FilesOnly(d.store)))
  }

  lemma FlushView(d: Durable, d': Durable, a: Action, user: UserKey)
    requires DurableInv(d) && Next(d, d', Ordinary(a)) && a.DoFlush? && Clear(d.store, a) && FilesView(d, user)
    ensures |d'.store.levels| == NUM_LEVELS && FilesView(d', user)
  {
    hide Inv, Read, UniqueVersions, EntriesFrom, EntriesIn, OpsIn, BatchOutcome, Ordered, SequencesAtMost, StartAfter, EndBy,
         ApplyEdit, ClearDownTo, BuiltFrom, ClearOfRunning, AsSet;
    var files := EntriesFrom(d.store.levels, 0);
    FilesAfter(d.store, d'.store, a);
    FilesUniqueUpTo(d.store);
    LogsAlone(d);
    OldLogAlone(d);
    var low := SomeBetween(files, d.oldLog, d.store.lastSequence);
    ReadOverRecords(files, d.oldLog, low, d.store.lastSequence, user);
    SameReadLater(files, user, low, d.store.lastSequence);
    assert EntriesFrom(d'.store.levels, 0) == files + EntriesIn(d.oldLog);
    OpsConcat(d.flushed, d.oldLog);
    OutcomeOver(OpsIn(d.flushed), OpsIn(d.oldLog), user, None);
  }

  lemma OldLogAlone(d: Durable)
    requires DurableInv(d)
    ensures Ordered(d.oldLog) && EndBy(d.oldLog, d.store.lastSequence) && StartAfter(d.oldLog, EntriesFrom(d.store.levels, 0))
  {
    hide Inv, EntriesIn, EntriesFrom;
    LogsAlone(d);
    OrderedParts(d.oldLog, d.log);
    forall i | 0 <= i < |d.oldLog| ensures (d.oldLog + d.log)[i] == d.oldLog[i] {
    }
  }

  lemma MoveView(d: Durable, d': Durable, a: Action, user: UserKey)
    requires DurableInv(d) && Next(d, d', Ordinary(a)) && (a.DoMove? || a.DoFinish?) && FilesView(d, user)
    requires SafeEvent(d, Ordinary(a))
    ensures |d'.store.levels| == NUM_LEVELS && FilesView(d', user)
  {
    hide Inv, Read, EntriesFrom, OpsIn, BatchOutcome, LogInv, NoResurrection, ApplyEdit, GoodInputs;
    FilesOnlyInv(d.store);
    MoveOnFiles(d.store, d'.store, a);
    StepKeepsInv(d.store, d'.store, a);
    FilesOnlyInv(d'.store);
    LatestBounds(FilesOnly(d.store));
    StepKeepsReads(FilesOnly(d.store), FilesOnly(d'.store), a, user, d.store.lastSequence);
  }

  // Whatever else happens leaves the files alone.
  lemma IdleView(d: Durable, d': Durable, user: UserKey)
    requires DurableInv(d) && DurableInv(d') && FilesView(d, user)
    requires d'.store.levels == d.store.levels && d'.flushed == d.flushed
    ensures FilesView(d', user)
  {
    hide Inv, Read, EntriesFrom, OpsIn, BatchOutcome, LogInv, UniqueVersions, SequencesAtMost;
    FilesUniqueUpTo(d.store);
    FilesUniqueUpTo(d'.store);
    var t, t' := d.store.lastSequence, d'.store.lastSequence;
    if t <= t' {
      SameReadLater(EntriesFrom(d.store.levels, 0), user, t, t');
    } else {
      SameReadLater(EntriesFrom(d.store.levels, 0), user, t', t);
    }
  }

  lemma IdleEvent(d: Durable, d': Durable, e: Event)
    requires DurableInv(d) && Next(d, d', e)
    requires e.Ordinary? ==> !e.step.DoFlush? && !e.step.DoMove? && !e.step.DoFinish?
    ensures d'.store.levels == d.store.levels && d'.flushed == d.flushed
  {
    hide Inv, LogInv, InsertBatch;
    if e.Ordinary? {
      SameLevels(d.store, d'.store, e.step);
    } else if e.Crash? {
      RestartKeepsInv(d.store, e.restarted);
    }
  }

  lemma NextKeepsView(d: Durable, d': Durable, e: Event, user: UserKey)
    requires DurableInv(d) && Next(d, d', e) && SafeEvent(d, e) && FilesView(d, user)
    ensures DurableInv(d') && FilesView(d', user)
  {
    NextKeepsInv(d, d', e);
    LevelsThere(d);
    LevelsThere(d');
    hide Inv, LogInv, FilesView, Step, Restarted;
    if e.Ordinary? && e.step.DoFlush? {
      FlushView(d, d', e.step, user);
    } else if e.Ordinary? && (e.step.DoMove? || e.step.DoFinish?) {
      MoveView(d, d', e.step, user);
    } else {
      IdleEvent(d, d', e);
      IdleView(d, d', user);
    }
  }

  lemma LevelsThere(d: Durable)
    requires DurableInv(d)
    ensures |d.store.levels| == NUM_LEVELS
  {
  }

  // ----- runs with crashes -----

  ghost predicate DurableRun(states: seq<Durable>, events: seq<Event>) {
    && |states| == |events| + 1
    && Start(states[0])
    && forall k :: 0 <= k < |events| ==> Next(states[k], states[k + 1], events[k]) && SafeEvent(states[k], events[k])
  }

  lemma StartInv(d: Durable, user: UserKey)
    requires Start(d)
    ensures DurableInv(d) && FilesView(d, user)
  {
    InitInv(d.store);
    LevelCount(d.store);
    NothingIn();
  }

  lemma {:induction false} RunKeepsDurableInv(states: seq<Durable>, events: seq<Event>, n: nat, user: UserKey)
    requires DurableRun(states, events) && n < |states|
    ensures DurableInv(states[n]) && FilesView(states[n], user)
  {
    hide DurableInv, Next, SafeEvent, Start, FilesView;
    if n == 0 {
      StartInv(states[0], user);
    } else {
      RunKeepsDurableInv(states, events, n - 1, user);
      NextKeepsView(states[n - 1], states[n], events[n - 1], user);
    }
  }

  /** In every run, with any number of crashes and restarts, the latest read of a key is what the
      records that count say: those in the files, then the two logs. */
  lemma LatestReadSurvivesCrashes(states: seq<Durable>, events: seq<Event>, n: nat, user: UserKey)
    requires DurableRun(states, events) && n < |states|
    ensures |states[n].store.levels| == NUM_LEVELS
    ensures Latest(states[n].store, user) == BatchOutcome(OpsIn(History(states[n])), user, None)
  {
    RunKeepsDurableInv(states, events, n, user);
    LevelsThere(states[n]);
    hide DurableInv, FilesView, History, OpsIn, BatchOutcome, Latest;
    LatestFromView(states[n], user);
  }

  // Everything written that has not been lost.
  function AllRecords(d: Durable): seq<Record> {
    d.flushed + d.oldLog + d.log + d.pending
  }

  // r can not be lost any more.
  ghost predicate Kept(d: Durable, r: Record) {
    || r in d.flushed || r in d.pending
    || (d.oldSynced <= |d.oldLog| && r in d.oldLog[..d.oldSynced]) || (d.synced <= |d.log| && r in d.log[..d.synced])
  }

  lemma StaysKept(d: Durable, d': Durable, e: Event, r: Record)
    requires DurableInv(d) && Next(d, d', e) && Kept(d, r)
    ensures Kept(d', r)
  {
    hide Inv, Step, Restarted, Ordered, StartAfter, EndBy, EntriesIn, Reinserted, InsertBatch;
    match e {
      case Ordinary(a) => StaysKeptOrdinary(d, d', a, r);
      case SyncLog => assert d'.log[..d'.synced] == d.log && (r in d.log[..d.synced] ==> r in d.log);
      case Crash(i, j, s) =>
        assert d.oldLog[..d.oldSynced] <= d.oldLog[..i] && d.log[..d.synced] <= d.log[..j];
      case ReplayRecord =>
        assert d.pending == [d.pending[0]] + d.pending[1..];
        assert d'.log[..d'.synced] == d.log + [d.pending[0]] && (r in d.log[..d.synced] ==> r in d.log);
    }
  }

  lemma StaysKeptOrdinary(d: Durable, d': Durable, a: Action, r: Record)
    requires DurableInv(d) && Next(d, d', Ordinary(a)) && Kept(d, r)
    ensures Kept(d', r)
  {
    hide Inv, Step, Ordered, StartAfter, EndBy, EntriesIn;
    if a.DoWrite? {
      assert d'.log[..d.synced] == d.log[..d.synced];
    } else if a.DoSwitch? {
      SwitchNeedsRoom(d.store, d'.store);
    } else if a.DoFlush? {
      assert r in d.oldLog[..d.oldSynced] ==> r in d.oldLog;
    }
  }

  lemma SwitchNeedsRoom(s: State, s': State)
    requires Step(s, s', DoSwitch)
    ensures s.imm.None?
  {
  }

  /** No crash loses a record that has been synced or saved in a table: neither the next one nor
      any later one. */
  lemma {:induction false} SyncedNeverLost(states: seq<Durable>, events: seq<Event>, m: nat, n: nat, r: Record)
    requires DurableRun(states, events) && m <= n < |states| && Kept(states[m], r)
    ensures Kept(states[n], r) && r in AllRecords(states[n])
  {
    hide DurableInv, Next, SafeEvent, Start, FilesView;
    if m < n {
      SyncedNeverLost(states, events, m, n - 1, r);
      RunKeepsDurableInv(states, events, n - 1, 0);
      StaysKept(states[n - 1], states[n], events[n - 1], r);
    }
  }

  // Some write of the run carried the operations of r.
  ghost predicate WrittenBy(events: seq<Event>, n: nat, r: Record)
    requires n <= |events|
  {
    exists k :: 0 <= k < n && events[k] == Ordinary(DoWrite(r.ops))
  }

  /** No restart invents a record: whatever counts was written. */
  lemma {:induction false} NothingInvented(states: seq<Durable>, events: seq<Event>, n: nat, r: Record)
    requires DurableRun(states, events) && n < |states| && r in AllRecords(states[n])
    ensures WrittenBy(events, n, r)
  {
    hide SafeEvent, Start;
    StartsEmpty(states[0]);
    if n > 0 {
      assert Next(states[n - 1], states[n], events[n - 1]);
      RecordsOfNext(states[n - 1], states[n], events[n - 1], r);
      if r in AllRecords(states[n - 1]) {
        NothingInvented(states, events, n - 1, r);
      }
    }
  }

  lemma StartsEmpty(d: Durable)
    requires Start(d)
    ensures AllRecords(d) == []
  {
  }

  lemma RecordsOfNext(d: Durable, d': Durable, e: Event, r: Record)
    requires Next(d, d', e) && r in AllRecords(d')
    ensures r in AllRecords(d) || e == Ordinary(DoWrite(r.ops))
  {
    hide Step, Restarted, Reinserted;
    match e {
      case Ordinary(a) =>
      case SyncLog =>
      case Crash(i, j, s) =>
        assert r in d.oldLog[..i] ==> r in d.oldLog;
        assert r in d.log[..j] ==> r in d.log;
      case ReplayRecord =>
        assert d.pending == [d.pending[0]] + d.pending[1..];
    }
  }

  ghost predicate Replaying(e: Event) {
    e.ReplayRecord? || (e.Ordinary? && (e.step.DoSwitch? || e.step.DoFlush?))
  }

  lemma ReplayKeepsRecords(d: Durable, d': Durable, e: Event)
    requires DurableInv(d) && Next(d, d', e) && Replaying(e)
    ensures AllRecords(d') == AllRecords(d)
  {
    hide Inv, Ordered, StartAfter, EndBy, EntriesIn, Reinserted, Step;
    if e.ReplayRecord? {
      assert d.pending == [d.pending[0]] + d.pending[1..];
    } else if e.step.DoSwitch? {
      SwitchNeedsRoom(d.store, d'.store);
    }
  }

  lemma {:induction false} ReplayRunKeepsRecords(states: seq<Durable>, events: seq<Event>, m: nat, n: nat)
    requires DurableRun(states, events) && m <= n < |states|
    requires forall k :: m <= k < n ==> Replaying(events[k])
    ensures AllRecords(states[n]) == AllRecords(states[m])
  {
    hide DurableInv, Next, SafeEvent, Start, AllRecords, FilesView;
    if m < n {
      ReplayRunKeepsRecords(states, events, m, n - 1);
      RunKeepsDurableInv(states, events, n - 1, 0);
      ReplayKeepsRecords(states[n - 1], states[n], events[n - 1]);
    }
  }

  // What a crash leaves: the files and the kept parts of the two logs.
  function Left(d: Durable, e: Event): seq<Record>
    requires e.Crash? && e.keptOld <= |d.oldLog| && e.kept <= |d.log|
  {
    d.flushed + d.oldLog[..e.keptOld] + d.log[..e.kept] + d.pending
  }

  /** After a crash and a restart that has replayed everything, the latest reads are exactly what
      the files and the kept parts of the logs say. */
  lemma RestartReadsWhatIsLeft(states: seq<Durable>, events: seq<Event>, c: nat, n: nat, user: UserKey)
    requires DurableRun(states, events) && c < n < |states| && events[c].Crash? && states[n].pending == []
    requires forall k :: c < k < n ==> Replaying(events[k])
    ensures |states[n].store.levels| == NUM_LEVELS
    ensures events[c].keptOld <= |states[c].oldLog| && events[c].kept <= |states[c].log|
    ensures Latest(states[n].store, user) == BatchOutcome(OpsIn(Left(states[c], events[c])), user, None)
  {
    LatestReadSurvivesCrashes(states, events, n, user);
    ReplayRunKeepsRecords(states, events, c + 1, n);
    hide SafeEvent, Start, Restarted, Latest, BatchOutcome, OpsIn;
    assert Next(states[c], states[c + 1], events[c]);
    assert AllRecords(states[c + 1]) == Left(states[c], events[c]);
    assert AllRecords(states[n]) == History(states[n]);
  }

  // ----- is what is left a prefix of what was written? -----

  // The operations of the records under their sequence numbers.
  function NumberedOps(records: seq<Record>): seq<(nat, Op)> {
    if records == [] then [] else NumberedOps(records[..|records| - 1]) + Numbers(records[|records| - 1])
  }

  function Numbers(r: Record): seq<(nat, Op)> {
    seq(|r.ops|, i requires 0 <= i < |r.ops| => (r.first + i, r.ops[i]))
  }

  lemma {:induction false} NumberedConcat(a: seq<Record>, b: seq<Record>)
    ensures NumberedOps(a + b) == NumberedOps(a) + NumberedOps(b)
  {
    if b == [] {
      assert a + b == a;
    } else {
      var n := |b| - 1;
      assert (a + b)[..|a + b| - 1] == a + b[..n] && (a + b)[|a + b| - 1] == b[n];
      NumberedLast(b);
      NumberedLast(a + b);
      hide *;
      NumberedConcat(a, b[..n]);
    }
  }

  lemma NumberedLast(records: seq<Record>)
    requires records != []
    ensures NumberedOps(records) == NumberedOps(records[..|records| - 1]) + Numbers(records[|records| - 1])
  {
  }

  lemma {:induction false} NumberedInRecord(records: seq<Record>, k: nat) returns (i: nat)
    requires k < |NumberedOps(records)|
    ensures i < |records| && records[i].first <= NumberedOps(records)[k].0 < records[i].first + |records[i].ops|
  {
    var n := |records| - 1;
    if k < |NumberedOps(records[..n])| {
      i := NumberedInRecord(records[..n], k);
    } else {
      i := n;
    }
  }

  /** The two logs are cut independently.  What a crash leaves is a prefix of what was written
      exactly if nothing of the old log is lost or nothing of the new one is left. */
  lemma LeftIsPrefixIff(old': seq<Record>, i: nat, log: seq<Record>, j: nat)
    requires Ordered(old' + log) && i <= |old'| && j <= |log|
    ensures NumberedOps(old'[..i] + log[..j]) <= NumberedOps(old' + log) <==>
            NumberedOps(old'[i..]) == [] || NumberedOps(log[..j]) == []
  {
    hide NumberedOps, Ordered;
    var a, b, c, e := NumberedOps(old'[..i]), NumberedOps(old'[i..]), NumberedOps(log[..j]), NumberedOps(log[j..]);
    assert old' == old'[..i] + old'[i..] && log == log[..j] + log[j..];
    NumberedConcat(old'[..i], log[..j]);
    NumberedConcat(old', log);
    NumberedConcat(old'[..i], old'[i..]);
    NumberedConcat(log[..j], log[j..]);
    assert NumberedOps(old'[..i] + log[..j]) == a + c && NumberedOps(old' + log) == a + b + (c + e);
    if b == [] {
      assert a + b + (c + e) == a + c + e;
    } else if c == [] {
      assert a + c == a && a + b + (c + e) == a + (b + (c + e));
    } else {
      LostBeforeKept(old', i, log, j);
      assert (a + c)[|a|] == c[0] && (a + b + (c + e))[|a|] == b[0];
    }
  }

  lemma LostBeforeKept(old': seq<Record>, i: nat, log: seq<Record>, j: nat)
    requires Ordered(old' + log) && i <= |old'| && j <= |log|
    requires NumberedOps(old'[i..]) != [] && NumberedOps(log[..j]) != []
    ensures NumberedOps(old'[i..])[0].0 < NumberedOps(log[..j])[0].0
  {
    hide NumberedOps;
    var k := NumberedInRecord(old'[i..], 0);
    var l := NumberedInRecord(log[..j], 0);
    var all := old' + log;
    assert all[i + k] == old'[i..][k] && all[|old'| + l] == log[..j][l];
  }

  /** The same for a crash of the store. */
  lemma CrashLeavesPrefixIff(d: Durable, d': Durable, e: Event)
    requires DurableInv(d) && Next(d, d', e) && e.Crash? && d.pending == []
    ensures e.keptOld <= |d.oldLog| && e.kept <= |d.log|
    ensures NumberedOps(AllRecords(d')) <= NumberedOps(AllRecords(d)) <==>
            NumberedOps(d.oldLog[e.keptOld..]) == [] || NumberedOps(d.log[..e.kept]) == []
  {
    hide Inv, NumberedOps, Ordered, StartAfter, EndBy, EntriesIn, Restarted;
    var a, left, all := NumberedOps(d.flushed), d.oldLog[..e.keptOld] + d.log[..e.kept], d.oldLog + d.log;
    LogsAlone(d);
    LeftIsPrefixIff(d.oldLog, e.keptOld, d.log, e.kept);
    assert AllRecords(d) == d.flushed + all && AllRecords(d') == d.flushed + left;
    NumberedConcat(d.flushed, all);
    NumberedConcat(d.flushed, left);
    PrefixBehind(a, NumberedOps(left), NumberedOps(all));
  }

  lemma PrefixBehind<T>(a: seq<T>, b: seq<T>, c: seq<T>)
    ensures a + b <= a + c <==> b <= c
  {
    if b <= c {
      assert a + c == a + b + c[|b|..];
    }
    if a + b <= a + c {
      assert (a + b)[|a|..] == b && (a + c)[|a|..] == c;
      assert (a + b)[|a|..] == (a + c)[..|a + b|][|a|..] == (a + c)[|a|..][..|b|];
    }
  }

  // ----- a synced write survives an older one -----

  function OneWrite(user: UserKey, sequence: nat): Record {
    WriteQueue.Record(sequence, [Put(user, [])])
  }

  function TwoLogs(n: nat): Durable
    requires n <= 6
  {
    var empty := State([], None, seq(NUM_LEVELS, _ => []), [], 0, [], 2, None);
    var e1, e2 := OpEntry(Put(1, []), 1), OpEntry(Put(2, []), 2);
    var r1, r2 := OneWrite(1, 1), OneWrite(2, 2);
    if n == 0 then Durable(empty, [], [], 0, [], 0, [])
    else if n == 1 then Durable(empty.(mem := [e1], lastSequence := 1), [], [], 0, [r1], 0, [])
    else if n == 2 then Durable(empty.(imm := Some([e1]), lastSequence := 1), [], [r1], 0, [], 0, [])
    else if n == 3 then Durable(empty.(mem := [e2], imm := Some([e1]), lastSequence := 2), [], [r1], 0, [r2], 0, [])
    else if n == 4 then Durable(empty.(mem := [e2], imm := Some([e1]), lastSequence := 2), [], [r1], 0, [r2], 1, [])
    else if n == 5 then Durable(empty, [], [], 0, [], 0, [r2])
    else Durable(empty.(mem := [e2], lastSequence := 2), [], [], 0, [r2], 1, [])
  }

  lemma OneInserted(user: UserKey, sequence: nat)
    ensures InsertBatch([], [Put(user, [])], sequence) == [OpEntry(Put(user, []), sequence)]
  {
    assert [Put(user, [])][..0] == [];
    assert InsertBatch([], [], sequence) == [];
  }

  lemma EmptyRestarts(s: State)
    requires s.manifest == []
    ensures Restarted(s, State([], None, seq(NUM_LEVELS, _ => []), [], 0, [], 2, None))
  {
    var levels := seq(NUM_LEVELS, _ => []);
    assert Replay([]) == levels;
    forall e ensures e !in EntriesFrom(levels, 0) {
      InEntriesFrom(levels, 0, e);
    }
  }

  function TwoLogsEvent(n: nat): Event
    requires n < 6
  {
    if n == 0 then Ordinary(DoWrite([Put(1, [])]))
    else if n == 1 then Ordinary(DoSwitch)
    else if n == 2 then Ordinary(DoWrite([Put(2, [])]))
    else if n == 3 then SyncLog
    else if n == 4 then Crash(0, 1, TwoLogs(5).store)
    else ReplayRecord
  }

  lemma TwoLogsWrite(n: nat)
    requires n == 0 || n == 2
    ensures Next(TwoLogs(n), TwoLogs(n + 1), TwoLogsEvent(n))
  {
    hide InsertBatch;
    OneInserted(1, 1);
    OneInserted(2, 2);
    if n == 0 {
      assert [] + [OneWrite(1, 1)] == [OneWrite(1, 1)];
    } else {
      assert [] + [OneWrite(2, 2)] == [OneWrite(2, 2)];
    }
  }

  lemma TwoLogsSwitchAndSync(n: nat)
    requires n == 1 || n == 3
    ensures Next(TwoLogs(n), TwoLogs(n + 1), TwoLogsEvent(n))
  {
  }

  lemma TwoLogsCrash()
    ensures Next(TwoLogs(4), TwoLogs(5), TwoLogsEvent(4))
  {
    EmptyRestarts(TwoLogs(4).store);
    hide Restarted;
    var r1, r2 := OneWrite(1, 1), OneWrite(2, 2);
    assert [r1][..0] == [] && [r2][..1] == [r2] && [] + [r2] + [] == [r2];
  }

  lemma TwoLogsReplay()
    ensures Next(TwoLogs(5), TwoLogs(6), TwoLogsEvent(5))
  {
    hide InsertBatch;
    OneInserted(2, 2);
    var r2 := OneWrite(2, 2);
    assert [r2][1..] == [] && [] + [r2] == [r2];
  }

  lemma TwoLogsNext(n: nat)
    requires n < 6
    ensures Next(TwoLogs(n), TwoLogs(n + 1), TwoLogsEvent(n)) && SafeEvent(TwoLogs(n), TwoLogsEvent(n))
  {
    hide Next, TwoLogs;
    if n == 0 || n == 2 {
      TwoLogsWrite(n);
    } else if n == 1 || n == 3 {
      TwoLogsSwitchAndSync(n);
    } else if n == 4 {
      TwoLogsCrash();
    } else {
      TwoLogsReplay();
    }
  }

  /** A run in which a crash takes an older write that was not synced and leaves a newer one that
      was: the older one sits in the log of the immutable memtable. */
  lemma OlderWriteLost() returns (states: seq<Durable>, events: seq<Event>)
    ensures DurableRun(states, events) && |states| == 7 && states[6].pending == []
    ensures |states[4].store.levels| == |states[6].store.levels| == NUM_LEVELS
    ensures Latest(states[4].store, 1) == Some([]) && Latest(states[6].store, 1) == None && Latest(states[6].store, 2) == Some([])
  {
    states := seq(7, n requires 0 <= n < 7 => TwoLogs(n));
    events := seq(6, n requires 0 <= n < 6 => TwoLogsEvent(n));
    assert Start(TwoLogs(0)) && TwoLogs(6).pending == [];
    assert History(TwoLogs(4)) == [OneWrite(1, 1), OneWrite(2, 2)] && History(TwoLogs(6)) == [OneWrite(2, 2)];
    hide Start, Next, SafeEvent, TwoLogs, TwoLogsEvent, Latest, History, OpsIn, BatchOutcome;
    forall k | 0 <= k < 6 ensures Next(states[k], states[k + 1], events[k]) && SafeEvent(states[k], events[k]) {
      TwoLogsNext(k);
    }
    LatestReadSurvivesCrashes(states, events, 4, 1);
    LatestReadSurvivesCrashes(states, events, 6, 1);
    LatestReadSurvivesCrashes(states, events, 6, 2);
    OneOutcome(2, 2, 1, None);
    OneOutcome(2, 2, 2, None);
    TwoOutcomes();
  }

  lemma OneOutcome(user: UserKey, sequence: nat, other: UserKey, before: Option<Bytes>)
    ensures OpsIn([OneWrite(user, sequence)]) == [Put(user, [])]
    ensures BatchOutcome(OpsIn([OneWrite(user, sequence)]), other, before) == if user == other then Some([]) else before
  {
    EntriesMore([], OneWrite(user, sequence));
    assert [] + [OneWrite(user, sequence)] == [OneWrite(user, sequence)];
    assert [Put(user, [])][..0] == [];
  }

  lemma TwoOutcomes()
    ensures BatchOutcome(OpsIn([OneWrite(1, 1), OneWrite(2, 2)]), 1, None) == Some([])
  {
    var one, two := [OneWrite(1, 1)], [OneWrite(2, 2)];
    assert [OneWrite(1, 1), OneWrite(2, 2)] == one + two;
    hide OpsIn, BatchOutcome, OneWrite;
    OpsConcat(one, two);
    OneOutcome(1, 1, 1, None);
    OneOutcome(2, 2, 1, Some([]));
    OutcomeOver(OpsIn(one), OpsIn(two), 1, None);
  }

  // ----- runs that close their inputs -----

  ghost predicate ClosedEvent(d: Durable, e: Event) {
    && ClearEvent(d, e)
    && (e.Ordinary? && e.step.DoBegin? ==>
          && |d.store.levels| == NUM_LEVELS && e.step.r.level + 1 < NUM_LEVELS
          && NextLevelClosed(d.store.levels, e.step.r.level, e.step.r.lower))
  }

  lemma ClosedIsSafe(d: Durable, d': Durable, e: Event)
    requires DurableInv(d) && Next(d, d', e) && ClosedEvent(d, e) && LeftOutIsNewer(d.store)
    ensures SafeEvent(d, e) && LeftOutIsNewer(d'.store)
  {
    hide Inv, LogInv, InsertBatch, ApplyEdit, GoodInputs, GoodOutputs, NewerAbove, NextLevelClosed, ClearOfRunning;
    if e.Ordinary? {
      hide Step;
      StepKeepsLeftOutNewer(d.store, d'.store, e.step);
      if e.step.DoFinish? {
        FinishNeedsRunning(d.store, d'.store, e.step);
        FilesOnlyInv(d.store);
        LeftOutNewerIsSafe(FilesOnly(d.store));
      }
    }
  }

  /** If every compaction closes its inputs in the next level at user keys, a run with crashes is
      safe, so all of the above applies. */
  lemma {:induction false} ClosedCrashRunsAreSafe(states: seq<Durable>, events: seq<Event>, n: nat)
    requires |states| == |events| + 1 && Start(states[0]) && n <= |events|
    requires forall k :: 0 <= k < |events| ==> Next(states[k], states[k + 1], events[k]) && ClosedEvent(states[k], events[k])
    ensures DurableRun(states[..n + 1], events[..n])
    ensures DurableInv(states[n]) && LeftOutIsNewer(states[n].store)
  {
    hide Next, DurableInv, ClosedEvent, SafeEvent, LeftOutIsNewer;
    if n == 0 {
      StartInv(states[0], 0);
      NothingRuns(states[0]);
    } else {
      ClosedCrashRunsAreSafe(states, events, n - 1);
      assert Next(states[n - 1], states[n - 1 + 1], events[n - 1]) && ClosedEvent(states[n - 1], events[n - 1]);
      ClosedIsClear(states[n - 1], events[n - 1]);
      NextKeepsInv(states[n - 1], states[n], events[n - 1]);
      ClosedIsSafe(states[n - 1], states[n], events[n - 1]);
      forall k | 0 <= k < n
        ensures Next(states[..n + 1][k], states[..n + 1][k + 1], events[..n][k]) && SafeEvent(states[..n + 1][k], events[..n][k])
      {
        if k < n - 1 {
          var earlier, before := states[..n], events[..n - 1];
          assert SafeEvent(earlier[k], before[k]);
        }
      }
    }
  }

  lemma NothingRuns(d: Durable)
    requires Start(d)
    ensures LeftOutIsNewer(d.store)
  {
  }

  lemma ClosedIsClear(d: Durable, e: Event)
    requires ClosedEvent(d, e)
    ensures ClearEvent(d, e)
  {
  }
}
