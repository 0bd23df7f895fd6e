/** The store as a state machine: writes, memtable switches, flushes, moves, compactions that
    run while the rest goes on, and snapshots. */
module Lsm {
  import opened DbFormat
  import opened Files
  import opened Version
  import opened VersionBuilder
  import opened Compaction
  import opened CompactionInputs
  import opened LevelMoves
  import opened DropRules
  import opened Edits
  import opened Picked

  datatype Op = Put(key: UserKey, value: Bytes) | Delete(key: UserKey)

  // A compaction between the choice of its inputs and the installation of its outputs.
  datatype Running = Running(level: nat, upper: seq<File>, lower: seq<File>, inputVersion: Levels,
                             smallestSnapshot: nat, outputs: seq<File>)

  datatype State = State(mem: seq<Entry>, imm: Option<seq<Entry>>, levels: Levels, manifest: seq<VersionEdit>,
                         lastSequence: nat, snapshots: seq<nat>, nextFile: nat, running: Option<Running>)

  ghost function ImmEntries(imm: Option<seq<Entry>>): set<Entry> {
    if imm.Some? then AsSet(imm.value) else {}
  }

  ghost function AllEntries(s: State): set<Entry>
    requires |s.levels| == NUM_LEVELS
  {
    AsSet(s.mem) + ImmEntries(s.imm) + EntriesFrom(s.levels, 0)
  }

  // ----- steps -----

  // Insertion into a memtable keeps internal-key order.
  function InsertEntry(mem: seq<Entry>, e: Entry): seq<Entry> {
    if mem == [] || e.key.Less(mem[0].key) then [e] + mem else [mem[0]] + InsertEntry(mem[1..], e)
  }

  function OpEntry(op: Op, sequence: nat): Entry {
    match op
    case Put(k, v) => Entry(IKey(k, sequence, Value), v)
    case Delete(k) => Entry(IKey(k, sequence, Deletion), [])
  }

  // The operations of a batch take consecutive sequence numbers from first on.
  function InsertBatch(mem: seq<Entry>, batch: seq<Op>, first: nat): seq<Entry> {
    if batch == [] then mem
    else InsertEntry(InsertBatch(mem, batch[..|batch| - 1], first), OpEntry(batch[|batch| - 1], first + |batch| - 1))
  }

  ghost predicate Write(s: State, s': State, batch: seq<Op>) {
    && s.lastSequence + |batch| < MAX_SEQUENCE
    && s' == s.(mem := InsertBatch(s.mem, batch, s.lastSequence + 1), lastSequence := s.lastSequence + |batch|)
  }

  ghost predicate SwitchMemTable(s: State, s': State) {
    s.imm.None? && s' == s.(imm := Some(s.mem), mem := [])
  }

  // The table built from a nonempty memtable.
  ghost predicate BuiltFrom(f: File, entries: seq<Entry>) {
    entries != [] && f.entries == entries && f.smallest == entries[0].key && f.largest == entries[|entries| - 1].key
  }

  ghost predicate Flush(s: State, s': State, level: nat, files: seq<File>)
    requires |s.levels| == NUM_LEVELS
  {
    && s.imm.Some? && level <= MAX_MEM_COMPACT_LEVEL
    && (if s.imm.value == [] then files == []
        else |files| == 1 && files[0].number == s.nextFile && BuiltFrom(files[0], s.imm.value)
             && (level > 0 ==> ClearDownTo(s.levels, level, files[0].smallest.user, files[0].largest.user)))
    && s' == s.(imm := None, levels := ApplyEdit(s.levels, FlushEdit(level, files)),
                manifest := s.manifest + [FlushEdit(level, files)], nextFile := s.nextFile + 1)
  }

  ghost predicate TrivialMove(s: State, s': State, level: nat, f: File)
    requires |s.levels| == NUM_LEVELS
  {
    && s.running.None? && level + 1 < NUM_LEVELS && GoodInputs(s.levels, level, [f], [])
    && var edit := CompactionEdit(level, [f], [], [f]);
       s' == s.(levels := ApplyEdit(s.levels, edit), manifest := s.manifest + [edit])
  }

  function SmallestSnapshot(s: State): nat {
    if s.snapshots == [] then s.lastSequence else s.snapshots[0]
  }

  ghost function SurvivingEntries(r: Running): set<Entry> {
    var inputs := InputEntries(r.upper, r.lower);
    set e | e in inputs && !Dropped(r.inputVersion, r.level, inputs, e, r.smallestSnapshot)
  }

  ghost predicate NumbersBetween(files: seq<File>, low: nat, high: nat) {
    forall f :: f in files ==> low <= f.number < high
  }

  // The output files hold exactly the surviving entries, in order, under new numbers.
  ghost predicate GoodOutputs(r: Running, low: nat, high: nat) {
    && ValidFiles(r.outputs) && SortedDisjoint(r.outputs) && DistinctNumbers(r.outputs)
    && EntriesOf(r.outputs) == SurvivingEntries(r)
    && NumbersBetween(r.outputs, low, high)
  }

  ghost predicate BeginCompaction(s: State, s': State, r: Running)
    requires |s.levels| == NUM_LEVELS
  {
    && s.running.None? && r.level + 1 < NUM_LEVELS && GoodInputs(s.levels, r.level, r.upper, r.lower)
    && r.inputVersion == s.levels && r.smallestSnapshot == SmallestSnapshot(s)
    && s.nextFile <= s'.nextFile && GoodOutputs(r, s.nextFile, s'.nextFile)
    && s' == s.(running := Some(r), nextFile := s'.nextFile)
  }

  ghost predicate FinishCompaction(s: State, s': State)
    requires |s.levels| == NUM_LEVELS
  {
    && s.running.Some?
    && var r := s.running.value;
       var edit := CompactionEdit(r.level, r.upper, r.lower, r.outputs);
       s' == s.(levels := ApplyEdit(s.levels, edit), manifest := s.manifest + [edit], running := None)
  }

  ghost predicate TakeSnapshot(s: State, s': State) {
    s' == s.(snapshots := s.snapshots + [s.lastSequence])
  }

  ghost predicate ReleaseSnapshot(s: State, s': State, i: nat) {
    i < |s.snapshots| && s' == s.(snapshots := s.snapshots[..i] + s.snapshots[i + 1..])
  }

  datatype Action =
    | DoWrite(batch: seq<Op>)
    | DoSwitch
    | DoFlush(flushLevel: nat, files: seq<File>)
    | DoMove(moveLevel: nat, file: File)
    | DoBegin(r: Running)
    | DoFinish
    | DoSnapshot
    | DoRelease(index: nat)

  ghost predicate Step(s: State, s': State, a: Action) {
    && |s.levels| == |s'.levels| == NUM_LEVELS
    && match a
       case DoWrite(batch) => Write(s, s', batch)
       case DoSwitch => SwitchMemTable(s, s')
       case DoFlush(level, files) => Flush(s, s', level, files)
       case DoMove(level, f) => TrivialMove(s, s', level, f)
       case DoBegin(r) => BeginCompaction(s, s', r)
       case DoFinish => FinishCompaction(s, s')
       case DoSnapshot => TakeSnapshot(s, s')
       case DoRelease(i) => ReleaseSnapshot(s, s', i)
  }

  // ----- what the code leaves to chance -----

  // A flush that is installed while a compaction runs must not drop its file into a gap of the
  // range that the outputs will fill.
  ghost predicate ClearOfRunning(running: Option<Running>, level: nat, files: seq<File>) {
    running.Some? && level == running.value.level + 1 ==>
      forall f, o :: f in files && o in running.value.outputs ==> Apart(f, o)
  }

  ghost function LeftOut(levels: Levels, r: Running): set<Entry>
    requires |levels| == NUM_LEVELS && r.level + 1 < NUM_LEVELS
  {
    EntriesOf(Without(levels[r.level + 1], r.lower))
  }

  // The markers that the running compaction drops hide nothing in the files it leaves out.
  ghost predicate NoResurrection(s: State)
    requires |s.levels| == NUM_LEVELS
  {
    s.running.Some? && s.running.value.level + 1 < NUM_LEVELS ==>
      var r := s.running.value;
      NothingResurfaces(AllEntries(s), InputEntries(r.upper, r.lower), LeftOut(s.levels, r), r.inputVersion, r.level, r.smallestSnapshot)
  }

  ghost predicate Clear(s: State, a: Action) {
    a.DoFlush? ==> ClearOfRunning(s.running, a.flushLevel, a.files)
  }

  ghost predicate Safe(s: State, a: Action) {
    Clear(s, a) && (a.DoFinish? ==> |s.levels| == NUM_LEVELS && NoResurrection(s))
  }

  ghost predicate Init(s: State) {
    s == State([], None, seq(NUM_LEVELS, _ => []), [], 0, [], 2, None)
  }

  // ----- the invariant -----

  ghost predicate VersionInv(levels: Levels, manifest: seq<VersionEdit>, nextFile: nat) {
    && ValidLevels(levels)
    && NumbersApart(levels) && NumbersBelow(levels, nextFile)
    && ManifestInv(levels, manifest, nextFile)
  }

  ghost predicate GoodTable(entries: seq<Entry>) {
    StrictlySorted(entries) && UniqueVersions(AsSet(entries))
  }

  ghost predicate SequencesAtMost(entries: set<Entry>, bound: nat) {
    forall e :: e in entries ==> e.key.seqno <= bound
  }

  // The memtable is newer than the immutable memtable, which is newer than every file.
  ghost predicate MemInv(mem: seq<Entry>, imm: Option<seq<Entry>>, files: set<Entry>, lastSequence: nat) {
    && GoodTable(mem) && (imm.Some? ==> GoodTable(imm.value))
    && NewerAbove(AsSet(mem), ImmEntries(imm)) && NewerAbove(AsSet(mem), files) && NewerAbove(ImmEntries(imm), files)
    && SequencesAtMost(AsSet(mem), lastSequence) && SequencesAtMost(ImmEntries(imm), lastSequence)
    && SequencesAtMost(files, lastSequence)
    && lastSequence < MAX_SEQUENCE
  }

  ghost predicate SnapshotInv(snapshots: seq<nat>, lastSequence: nat) {
    && (forall i, j :: 0 <= i < j < |snapshots| ==> snapshots[i] <= snapshots[j])
    && (forall i :: 0 <= i < |snapshots| ==> snapshots[i] <= lastSequence)
  }

  ghost predicate NumbersNeverRecorded(manifest: seq<VersionEdit>, files: seq<File>) {
    forall l, f, g :: 0 <= l < NUM_LEVELS && f in files && g in ReplayAt(manifest, l).added ==> f.number != g.number
  }

  // What a running compaction may rely on when it installs its outputs.
  ghost predicate RunningInv(r: Running, levels: Levels, manifest: seq<VersionEdit>, nextFile: nat)
    requires |levels| == NUM_LEVELS
  {
    && r.level + 1 < NUM_LEVELS
    && (forall f :: f in r.upper ==> f in levels[r.level])
    && (forall f :: f in r.lower ==> f in levels[r.level + 1])
    && NewerAbove(EntriesOf(Without(levels[r.level], r.upper)), InputEntries(r.upper, r.lower))
    && FitsIn(Without(levels[r.level + 1], r.lower), r.outputs)
    && Outside(levels, r.level, r.upper, r.lower) !! InputEntries(r.upper, r.lower)
    && OnlyHiddenBelow(EntriesFrom(levels, 0), InputEntries(r.upper, r.lower), LeftOut(levels, r), r.inputVersion, r.level)
    && GoodOutputs(r, 0, nextFile)
    && (forall l :: 0 <= l < NUM_LEVELS ==> NumbersUnused(levels[l], r.outputs))
    && NumbersNeverRecorded(manifest, r.outputs)
  }

  ghost predicate Inv(s: State) {
    && VersionInv(s.levels, s.manifest, s.nextFile)
    && MemInv(s.mem, s.imm, EntriesFrom(s.levels, 0), s.lastSequence)
    && SnapshotInv(s.snapshots, s.lastSequence)
    && (s.running.Some? ==>
          && RunningInv(s.running.value, s.levels, s.manifest, s.nextFile)
          && s.running.value.smallestSnapshot <= SmallestSnapshot(s))
  }

  // ----- writes -----

  lemma {:induction false} InsertEntrySorted(mem: seq<Entry>, e: Entry)
    requires StrictlySorted(mem)
    requires forall d :: d in mem && d.key.user == e.key.user ==> d.key.seqno < e.key.seqno
    ensures StrictlySorted(InsertEntry(mem, e))
    ensures forall d :: d in InsertEntry(mem, e) <==> d in mem || d == e
  {
    if mem != [] && !e.key.Less(mem[0].key) {
      InsertEntrySorted(mem[1..], e);
      var r := InsertEntry(mem[1..], e);
      assert mem == [mem[0]] + mem[1..];
      forall j | 0 <= j < |r| ensures mem[0].key.Less(r[j].key) {
        assert r[j] in r;
      }
    } else if mem != [] {
      forall j | 0 <= j < |mem| ensures e.key.Less(mem[j].key) {
        assert j > 0 ==> mem[0].key.Less(mem[j].key);
      }
    }
  }

  ghost function BatchEntries(batch: seq<Op>, first: nat): set<Entry> {
    if batch == [] then {}
    else BatchEntries(batch[..|batch| - 1], first) + {OpEntry(batch[|batch| - 1], first + |batch| - 1)}
  }

  lemma {:induction false} BatchSequences(batch: seq<Op>, first: nat)
    ensures forall e :: e in BatchEntries(batch, first) ==> first <= e.key.seqno < first + |batch|
  {
    if batch != [] {
      BatchSequences(batch[..|batch| - 1], first);
    }
  }

  lemma InsertOne(mem: seq<Entry>, e: Entry)
    requires GoodTable(mem) && forall d :: d in AsSet(mem) ==> d.key.seqno < e.key.seqno
    ensures GoodTable(InsertEntry(mem, e))
    ensures AsSet(InsertEntry(mem, e)) == AsSet(mem) + {e}
  {
    assert forall d :: d in mem ==> d in AsSet(mem);
    InsertEntrySorted(mem, e);
  }

  /** A batch adds versions that are newer than everything before. */
  lemma {:induction false} BatchInserted(mem: seq<Entry>, batch: seq<Op>, last: nat)
    requires GoodTable(mem) && SequencesAtMost(AsSet(mem), last)
    ensures var r := InsertBatch(mem, batch, last + 1);
            GoodTable(r) && AsSet(r) == AsSet(mem) + BatchEntries(batch, last + 1)
  {
    hide GoodTable, AsSet;
    if batch != [] {
      var init := batch[..|batch| - 1];
      BatchInserted(mem, init, last);
      BatchSequences(init, last + 1);
      InsertOne(InsertBatch(mem, init, last + 1), OpEntry(batch[|batch| - 1], last + |batch|));
    }
  }
}
