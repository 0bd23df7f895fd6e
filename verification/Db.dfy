/** The store as an object: each method takes one step of the state machine. */
module Db {
  import opened DbFormat
  import opened Files
  import opened VersionSearch
  import opened Version
  import opened VersionBuilder
  import opened Compaction
  import opened CompactionInputs
  import opened LevelMoves
  import opened Edits
  import opened Picked
  import opened Lsm
  import opened LsmInvariant
  import opened InternalIterator
  import opened LsmTheorems
  import opened Manifest
  import opened Snapshots
  import Durability
  import WriteQueue
  import Merger
  import DbIter

  // A new table may go past the level above l: nothing at l shares its range, and not too much
  // one level further down.
  ghost predicate MayPassTo(levels: Levels, l: nat, low: UserKey, high: UserKey, grandParentLimit: nat)
    requires |levels| == NUM_LEVELS && l < NUM_LEVELS
  {
    && (forall f :: f in levels[l] ==> !Overlaps(f, Some(low), Some(high)))
    && (l + 1 < NUM_LEVELS ==> TotalFileSize(Overlapping(levels[l + 1], Some(low), Some(high))) <= grandParentLimit)
  }

  /** The deepest level, at most 2, that the table may pass down to level by level. */
  method PickLevelForMemTableOutput(levels: Levels, low: UserKey, high: UserKey, grandParentLimit: nat) returns (level: nat)
    requires ValidLevels(levels)
    ensures |levels| == NUM_LEVELS && level <= MAX_MEM_COMPACT_LEVEL
    ensures (exists f :: f in levels[0] && Overlaps(f, Some(low), Some(high))) ==> level == 0
    ensures (forall f :: f in levels[0] ==> !Overlaps(f, Some(low), Some(high))) ==>
              && (forall l :: 0 < l <= level ==> MayPassTo(levels, l, low, high, grandParentLimit))
              && (level < MAX_MEM_COMPACT_LEVEL ==> !MayPassTo(levels, level + 1, low, high, grandParentLimit))
    ensures level > 0 ==> ClearDownTo(levels, level, low, high)
  {
    hide NewerAbove, UniqueVersions, NumberedByAge, DistinctNumbers, ListSorted;
    LevelShape(levels, 0);
    level := 0;
    var overlap := SomeFileOverlapsRange(false, levels[0], Some(low), Some(high));
    if !overlap {
      while level < MAX_MEM_COMPACT_LEVEL
        invariant level <= MAX_MEM_COMPACT_LEVEL
        invariant ClearDownTo(levels, level, low, high)
        invariant forall l :: 0 < l <= level ==> MayPassTo(levels, l, low, high, grandParentLimit)
      {
        LevelShape(levels, level + 1);
        overlap := SomeFileOverlapsRange(true, levels[level + 1], Some(low), Some(high));
        if overlap {
          break;
        }
        if level + 2 < NUM_LEVELS {
          ghost var b, e;
          var overlaps;
          overlaps, b, e := GetOverlappingInputs(level + 2, levels[level + 2], Some(low), Some(high));
          if TotalFileSize(overlaps) > grandParentLimit {
            break;
          }
        }
        level := level + 1;
      }
    }
  }

  // The output files of a compaction, numbered from first on.
  function FilesFrom(outputs: seq<seq<Entry>>, first: nat, sizeOf: seq<Entry> -> nat): seq<File>
    requires NonEmptyOutputs(outputs)
  {
    seq(|outputs|, i requires 0 <= i < |outputs| =>
      File(first + i, sizeOf(outputs[i]), outputs[i][0].key, outputs[i][|outputs[i]| - 1].key, outputs[i]))
  }

  lemma {:induction false} FlattenedApart(outputs: seq<seq<Entry>>)
    requires StrictlySorted(Flatten(outputs))
    ensures forall i :: 0 <= i < |outputs| ==> StrictlySorted(outputs[i])
    ensures forall i, j, d, e :: 0 <= i < j < |outputs| && d in outputs[i] && e in outputs[j] ==> d.key.Less(e.key)
    ensures forall e :: e in Flatten(outputs) <==> exists i :: 0 <= i < |outputs| && e in outputs[i]
  {
    if outputs != [] {
      var n := |outputs| - 1;
      var init, last := outputs[..n], outputs[n];
      SortedParts(Flatten(init), last);
      FlattenedApart(init);
      forall i, j, d, e | 0 <= i < j < |outputs| && d in outputs[i] && e in outputs[j] ensures d.key.Less(e.key) {
        assert outputs[i] == init[i];
        if j < n {
          assert outputs[j] == init[j];
        } else {
          assert d in Flatten(init);
        }
      }
      forall e ensures e in Flatten(outputs) <==> exists i :: 0 <= i < |outputs| && e in outputs[i] {
        if e in Flatten(init) {
          var i :| 0 <= i < |init| && e in init[i];
          assert e in outputs[i];
        }
        if i :| 0 <= i < |outputs| && e in outputs[i] {
          assert i < n ==> e in init[i];
        }
      }
    }
  }

  lemma SortedParts(a: seq<Entry>, b: seq<Entry>)
    requires StrictlySorted(a + b)
    ensures StrictlySorted(a) && StrictlySorted(b)
    ensures forall d, e :: d in a && e in b ==> d.key.Less(e.key)
  {
    var c := a + b;
    assert forall i :: 0 <= i < |a| ==> c[i] == a[i];
    assert forall j :: 0 <= j < |b| ==> c[|a| + j] == b[j];
    forall d, e | d in a && e in b ensures d.key.Less(e.key) {
      var i :| 0 <= i < |a| && a[i] == d;
      var j :| 0 <= j < |b| && b[j] == e;
      assert c[i].key.Less(c[|a| + j].key);
    }
  }

  lemma FilesFromValid(outputs: seq<seq<Entry>>, first: nat, sizeOf: seq<Entry> -> nat)
    requires NonEmptyOutputs(outputs) && forall i :: 0 <= i < |outputs| ==> StrictlySorted(outputs[i])
    requires forall i, e :: 0 <= i < |outputs| && e in outputs[i] ==> e.key.seqno <= MAX_SEQUENCE
    ensures var files := FilesFrom(outputs, first, sizeOf);
            ValidFiles(files) && NumbersBetween(files, first, first + |outputs|) && DistinctNumbers(files)
  {
    hide StrictlySorted;
    var files := FilesFrom(outputs, first, sizeOf);
    forall f | f in files ensures f.Valid() && first <= f.number < first + |outputs| {
      var i :| 0 <= i < |files| && files[i] == f;
      assert f.entries == outputs[i];
    }
  }

  lemma FilesFromEntries(outputs: seq<seq<Entry>>, first: nat, sizeOf: seq<Entry> -> nat)
    requires NonEmptyOutputs(outputs)
    requires forall e :: e in Flatten(outputs) <==> exists i :: 0 <= i < |outputs| && e in outputs[i]
    ensures EntriesOf(FilesFrom(outputs, first, sizeOf)) == AsSet(Flatten(outputs))
  {
    hide Flatten;
    var files := FilesFrom(outputs, first, sizeOf);
    forall e ensures e in EntriesOf(files) <==> e in Flatten(outputs) {
      if e in EntriesOf(files) {
        var f :| f in files && e in f.entries;
        var i :| 0 <= i < |files| && files[i] == f;
        assert e in outputs[i];
      }
      if i :| 0 <= i < |outputs| && e in outputs[i] {
        assert files[i] in files && e in files[i].entries;
      }
    }
  }

  lemma FilesFromShape(outputs: seq<seq<Entry>>, first: nat, sizeOf: seq<Entry> -> nat)
    requires NonEmptyOutputs(outputs) && StrictlySorted(Flatten(outputs))
    requires forall e :: e in Flatten(outputs) ==> e.key.seqno <= MAX_SEQUENCE
    ensures var files := FilesFrom(outputs, first, sizeOf);
            && ValidFiles(files) && SortedDisjoint(files) && DistinctNumbers(files)
            && EntriesOf(files) == AsSet(Flatten(outputs))
            && NumbersBetween(files, first, first + |outputs|)
  {
    hide StrictlySorted, Flatten, EntriesOf, AsSet, ValidFiles, NumbersBetween, DistinctNumbers;
    FlattenedApart(outputs);
    FilesFromValid(outputs, first, sizeOf);
    FilesFromEntries(outputs, first, sizeOf);
    var files := FilesFrom(outputs, first, sizeOf);
    forall i, j | 0 <= i < j < |files| ensures Precedes(files[i], files[j]) {
      assert outputs[i][|outputs[i]| - 1] in outputs[i] && outputs[j][0] in outputs[j];
    }
  }

  // The output files of the compaction loop are what BeginCompaction asks for.
  lemma OutputsAreGood(r: Running, input: seq<Entry>, outputs: seq<seq<Entry>>, first: nat, sizeOf: seq<Entry> -> nat)
    requires StrictlySorted(input) && AsSet(input) == InputEntries(r.upper, r.lower)
    requires SequencesAtMost(AsSet(input), MAX_SEQUENCE)
    requires NonEmptyOutputs(outputs)
    requires Flatten(outputs) == Survivors(r.inputVersion, r.level, input, r.smallestSnapshot, |input|)
    requires r.outputs == FilesFrom(outputs, first, sizeOf)
    ensures GoodOutputs(r, first, first + |outputs|)
  {
    hide StrictlySorted, Flatten, Dropped, FilesFrom, ValidFiles, SortedDisjoint, DistinctNumbers, EntriesOf, NumbersBetween, InputEntries;
    SurvivorsSorted(r.inputVersion, r.level, input, r.smallestSnapshot, |input|);
    assert input[..|input|] == input;
    forall e | e in Flatten(outputs) ensures e.key.seqno <= MAX_SEQUENCE {
      assert e in AsSet(input);
    }
    FilesFromShape(outputs, first, sizeOf);
    assert AsSet(Flatten(outputs)) == SurvivingEntries(r);
  }

  lemma InputListsGood(levels: Levels, level: nat, upper: seq<File>, lower: seq<File>)
    requires ValidLevels(levels) && |levels| == NUM_LEVELS && level + 1 < NUM_LEVELS && GoodInputs(levels, level, upper, lower)
    ensures Merger.GoodLists(Lists(upper + lower))
    ensures Merger.UnionOf(Lists(upper + lower)) == InputEntries(upper, lower)
    ensures UniqueVersions(InputEntries(upper, lower))
  {
    hide ValidLevels, GoodInputs, UniqueVersions, StrictlySorted, EntriesOf;
    InputShape(levels, level, upper, lower);
    InputVersionsUnique(levels, level, upper, lower);
    ListsOfFiles(upper + lower);
    EntriesOfConcat(upper, lower);
    var lists := Lists(upper + lower);
    forall i, j, d: Entry, e: Entry | 0 <= i < j < |lists| && d in lists[i] && e in lists[j] ensures d.key != e.key {
      InputsShareNoKey(levels, level, upper, lower, i, j, d, e);
    }
    forall i | 0 <= i < |lists| ensures StrictlySorted(lists[i]) {
      assert (upper + lower)[i] in upper + lower;
      assert (upper + lower)[i].Valid();
    }
  }

  lemma InputShape(levels: Levels, level: nat, upper: seq<File>, lower: seq<File>)
    requires ValidLevels(levels) && |levels| == NUM_LEVELS && level + 1 < NUM_LEVELS && GoodInputs(levels, level, upper, lower)
    ensures ValidFiles(upper) && ValidFiles(lower) && DistinctNumbers(upper) && DistinctNumbers(lower)
    ensures forall f :: f in upper ==> f in levels[level]
    ensures forall f :: f in lower ==> f in levels[level + 1]
    ensures ValidLevel(level, levels[level]) && ValidLevel(level + 1, levels[level + 1])
    ensures NewerAbove(EntriesOf(levels[level]), EntriesOf(levels[level + 1]))
  {
    hide UniqueVersions, NewerAbove, StrictlySorted, EntriesOf, VersionClosed, UserRange;
    LevelShape(levels, level);
    LevelShape(levels, level + 1);
    var low, high :| UserRange(upper, low, high) && lower == Overlapping(levels[level + 1], Some(low), Some(high));
    OverlappingDistinct(levels[level + 1], Some(low), Some(high));
  }

  lemma InputVersionsUnique(levels: Levels, level: nat, upper: seq<File>, lower: seq<File>)
    requires ValidLevels(levels) && |levels| == NUM_LEVELS && level + 1 < NUM_LEVELS && GoodInputs(levels, level, upper, lower)
    ensures UniqueVersions(InputEntries(upper, lower))
  {
    hide ValidLevels, ValidLevel, GoodInputs, UniqueVersions, NewerAbove, StrictlySorted, EntriesOf;
    InputShape(levels, level, upper, lower);
    EntriesOfSubset(upper, levels[level]);
    EntriesOfSubset(lower, levels[level + 1]);
    LevelsUnique(levels, level);
    UniqueUnion(EntriesOf(levels[level]), EntriesOf(levels[level + 1]));
    SubsetUnique(InputEntries(upper, lower), EntriesOf(levels[level]) + EntriesOf(levels[level + 1]));
  }

  lemma InputsShareNoKey(levels: Levels, level: nat, upper: seq<File>, lower: seq<File>, i: nat, j: nat, d: Entry, e: Entry)
    requires ValidLevels(levels) && |levels| == NUM_LEVELS && level + 1 < NUM_LEVELS && GoodInputs(levels, level, upper, lower)
    requires i < j < |upper + lower| && d in (upper + lower)[i].entries && e in (upper + lower)[j].entries
    ensures d.key != e.key
  {
    hide ValidLevels, ValidLevel, GoodInputs, UniqueVersions, NewerAbove, StrictlySorted, EntriesOf, ValidFiles;
    InputShape(levels, level, upper, lower);
    var f, g := (upper + lower)[i], (upper + lower)[j];
    assert i >= |upper| ==> f == lower[i - |upper|] && f in lower;
    assert j >= |upper| ==> g == lower[j - |upper|] && g in lower;
    if i < |upper| <= j {
      InFile(levels[level], f, d);
      InFile(levels[level + 1], g, e);
      if d.key == e.key {
        NewerPair(EntriesOf(levels[level]), EntriesOf(levels[level + 1]), d, e);
      }
    } else if j < |upper| {
      FilesShareNoKey(level, levels[level], f, g, d, e);
    } else {
      FilesShareNoKey(level + 1, levels[level + 1], f, g, d, e);
    }
  }

  lemma InFile(files: seq<File>, f: File, e: Entry)
    requires f in files && e in f.entries
    ensures e in EntriesOf(files)
  {
  }

  lemma FilesShareNoKey(level: nat, files: seq<File>, f: File, g: File, d: Entry, e: Entry)
    requires ValidLevel(level, files) && f in files && g in files && f.number != g.number
    requires d in f.entries && e in g.entries
    ensures d.key != e.key
  {
    hide UniqueVersions, DistinctNumbers, ListSorted, StrictlySorted;
    if level > 0 {
      LevelIsApart(level, files);
      EntryBounds(f, d);
      EntryBounds(g, e);
      assert Apart(f, g);
    } else {
      InFile([f], f, d);
      InFile([g], g, e);
      assert f.number > g.number ==> NewerAbove(EntriesOf([f]), EntriesOf([g]));
      assert g.number > f.number ==> NewerAbove(EntriesOf([g]), EntriesOf([f]));
    }
  }

  lemma FlushEditValid(level: nat, files: seq<File>)
    requires level <= MAX_MEM_COMPACT_LEVEL
    ensures ValidEdit(FlushEdit(level, files))
  {
  }

  class Db {
    var mem: seq<Entry>
    var imm: Option<seq<Entry>>
    var levels: Levels
    var manifest: seq<VersionEdit>
    var lastSequence: nat
    const snapshots: SnapshotList
    var nextFile: nat
    var running: Option<Running>

    ghost function Abs(): State
      reads this, snapshots, snapshots.nodes
    {
      State(mem, imm, levels, manifest, lastSequence, snapshots.Numbers(), nextFile, running)
    }

    ghost predicate Valid()
      reads this, snapshots, snapshots.head, snapshots.nodes
    {
      snapshots.Valid() && Inv(Abs())
    }

    constructor ()
      ensures Valid() && Init(Abs())
    {
      mem, imm, levels, manifest := [], None, seq(NUM_LEVELS, _ => []), [];
      lastSequence, nextFile, running := 0, 2, None;
      snapshots := new SnapshotList();
      new;
      InitInv(Abs());
    }

    /** Reopening: the version of the manifest, which is rewritten as a snapshot unless it is
        reused; the logs are still to be replayed. */
    constructor Reopen(manifest: seq<VersionEdit>, reuse: bool, lastSequence: nat, nextFile: nat, ghost s: State)
      requires Inv(s) && s.manifest == manifest
      requires forall i :: 0 <= i < |manifest| ==> ValidEdit(manifest[i])
      requires SequencesAtMost(EntriesFrom(s.levels, 0), lastSequence) && lastSequence <= s.lastSequence
      requires NumbersBelow(s.levels, nextFile) && RecordedBelow(manifest, nextFile)
      ensures Valid() && Durability.Restarted(s, Abs()) && fresh(snapshots)
      ensures this.lastSequence == lastSequence && this.nextFile == nextFile
      ensures this.manifest == if reuse then manifest else [SnapshotEdit(s.levels)]
    {
      hide Inv, Replay, RecordedBelow;
      var v := Recover(manifest);
      mem, imm, levels, running := [], None, v, None;
      this.lastSequence, this.nextFile := lastSequence, nextFile;
      var edit := WriteSnapshot(v);
      this.manifest := if reuse then manifest else [edit];
      snapshots := new SnapshotList();
      new;
      ReopenedState(s, Abs());
    }

    /** Replays one record of a log into the memtable. */
    method ReplayRecord(first: nat, ops: seq<Op>)
      requires Valid() && 0 < first && first + |ops| <= MAX_SEQUENCE
      requires |levels| == NUM_LEVELS && forall e :: e in AllEntries(Abs()) ==> e.key.seqno < first
      modifies this
      ensures Valid() && Durability.Reinserted(old(Abs()), Abs(), WriteQueue.Record(first, ops))
    {
      hide Inv, InsertEntry, InsertBatch, AllEntries;
      ghost var s := Abs();
      var sequence := first;
      NoOps(mem, first);
      assert ops[..0] == [];
      for i := 0 to |ops|
        invariant sequence == first + i && mem == InsertBatch(old(mem), ops[..i], first)
        invariant Abs() == s.(mem := mem)
      {
        InsertBatchStep(old(mem), ops, i, first);
        mem := InsertEntry(mem, OpEntry(ops[i], sequence));
        sequence := sequence + 1;
      }
      assert ops[..|ops|] == ops;
      if sequence - 1 > lastSequence {
        lastSequence := sequence - 1;
      }
      Durability.ReinsertKeepsInv(s, Abs(), WriteQueue.Record(first, ops));
    }

    // ----- writing -----

    method Write(batch: seq<Op>)
      requires Valid() && lastSequence + |batch| < MAX_SEQUENCE
      modifies this
      ensures Valid() && Step(old(Abs()), Abs(), DoWrite(batch))
    {
      hide Inv, InsertEntry, InsertBatch;
      ghost var s := Abs();
      LevelCount(s);
      NoOps(mem, lastSequence + 1);
      assert batch[..0] == [];
      for i := 0 to |batch|
        invariant mem == InsertBatch(old(mem), batch[..i], old(lastSequence) + 1)
        invariant lastSequence == old(lastSequence) + i
        invariant Abs() == s.(mem := mem, lastSequence := lastSequence)
      {
        InsertBatchStep(old(mem), batch, i, old(lastSequence) + 1);
        lastSequence := lastSequence + 1;
        mem := InsertEntry(mem, OpEntry(batch[i], lastSequence));
      }
      assert batch[..|batch|] == batch;
      StepKeepsInv(s, Abs(), DoWrite(batch));
    }

    method SwitchMemTable()
      requires Valid() && imm.None?
      modifies this
      ensures Valid() && Step(old(Abs()), Abs(), DoSwitch)
    {
      ghost var s := Abs();
      LevelCount(s);
      imm, mem := Some(mem), [];
      StepKeepsInv(s, Abs(), DoSwitch);
    }

    // ----- versions -----

    method LogAndApply(edit: VersionEdit)
      requires |levels| == NUM_LEVELS && ValidEdit(edit)
      modifies this`levels, this`manifest
      ensures levels == ApplyEdit(old(levels), edit) && manifest == old(manifest) + [edit]
    {
      var builder := new Builder(levels);
      builder.Apply(edit);
      var v := builder.SaveTo();
      forall l | 0 <= l < NUM_LEVELS ensures v[l] == ApplyEdit(levels, edit)[l] {
      }
      manifest := manifest + [edit];
      levels := v;
    }

    /** WriteLevel0Table: the table built from the immutable memtable, if that holds anything, and
        the level it may go to. */
    method WriteLevel0Table(fileSize: nat, grandParentLimit: nat) returns (level: nat, files: seq<File>)
      requires Valid() && imm.Some? && |levels| == NUM_LEVELS
      ensures level <= MAX_MEM_COMPACT_LEVEL
      ensures imm.value == [] ==> files == []
      ensures imm.value != [] ==>
                && |files| == 1 && files[0].number == nextFile && BuiltFrom(files[0], imm.value)
                && (level > 0 ==> ClearDownTo(levels, level, files[0].smallest.user, files[0].largest.user))
    {
      hide Inv, ClearDownTo, StrictlySorted, ValidLevels;
      level, files := 0, [];
      if imm.value != [] {
        var es := imm.value;
        var f := File(nextFile, fileSize, es[0].key, es[|es| - 1].key, es);
        TableRange(Abs(), f);
        level := PickLevelForMemTableOutput(levels, f.smallest.user, f.largest.user, grandParentLimit);
        files := [f];
      }
    }

    /** CompactMemTable.  The step is safe unless a compaction is running and the new table
        falls into a gap of its range. */
    method CompactMemTable(fileSize: nat, grandParentLimit: nat) returns (ghost a: Action)
      requires Valid() && imm.Some?
      modifies this
      ensures a.DoFlush? && Step(old(Abs()), Abs(), a)
      ensures Clear(old(Abs()), a) ==> Valid()
    {
      hide Inv, ApplyEdit, ClearDownTo, FlushEdit, Clear, BuiltFrom;
      ghost var s := Abs();
      LevelCount(s);
      var level, files := WriteLevel0Table(fileSize, grandParentLimit);
      FlushEditValid(level, files);
      LogAndApply(FlushEdit(level, files));
      nextFile := nextFile + 1;
      imm := None;
      a := DoFlush(level, files);
      assert Flush(s, Abs(), level, files);
      if Clear(s, a) {
        StepKeepsInv(s, Abs(), a);
      }
    }

    // ----- compactions -----

    /** BackgroundCompaction from the file that scores or seeks point at: a trivial move, or the
        loop whose outputs wait to be installed. */
    method BackgroundCompaction(level: nat, seed: File, sizeLimit: nat, grandParentsSmall: bool,
                                stopBefore: nat -> bool, bigEnough: seq<Entry> -> bool, sizeOf: seq<Entry> -> nat)
      returns (ghost a: Action, ghost inputs: seq<File>, ghost choice: Choice)
      requires Valid() && running.None? && level + 1 < NUM_LEVELS && |levels| == NUM_LEVELS && seed in levels[level]
      modifies this
      ensures Valid() && (a.DoMove? || a.DoBegin?) && Step(old(Abs()), Abs(), a)
      ensures a.DoMove? ==> a.moveLevel == level && a.file == seed && grandParentsSmall
      ensures a.DoBegin? ==> a.r.level == level && seed in a.r.upper && !(grandParentsSmall && |a.r.upper| == 1 && a.r.lower == [])
      ensures |old(levels)| == NUM_LEVELS && Seeded(level, old(levels)[level], seed, inputs)
      ensures Chosen(old(levels), level, inputs, sizeLimit, choice, if a.DoMove? then [seed] else a.r.upper, if a.DoMove? then [] else a.r.lower)
    {
      hide Inv, GoodInputs, ApplyEdit, ValidLevels;
      ghost var s := Abs();
      InvLevels(s);
      hide Chosen, Seeded;
      var upper, lower;
      upper, lower, inputs, choice := PickCompaction(levels, level, seed, sizeLimit);
      if |upper| == 1 && |lower| == 0 && grandParentsSmall {
        a := DoMove(level, upper[0]);
        assert upper == [upper[0]] && lower == [];
        EditLevels(level, upper, lower, upper);
        LogAndApply(CompactionEdit(level, upper, lower, upper));
        StepKeepsInv(s, Abs(), a);
      } else {
        a := StartCompaction(level, upper, lower, stopBefore, bigEnough, sizeOf);
      }
    }

    /** A manual compaction never moves a file as a whole. */
    method ManualCompaction(level: nat, begin: Option<UserKey>, end: Option<UserKey>, maxSize: nat, sizeLimit: nat,
                            stopBefore: nat -> bool, bigEnough: seq<Entry> -> bool, sizeOf: seq<Entry> -> nat)
      returns (done: bool, ghost a: Action, ghost called: seq<File>, ghost inputs: seq<File>, ghost choice: Choice)
      requires Valid() && running.None? && level + 1 < NUM_LEVELS
      modifies this
      ensures Valid()
      ensures |old(levels)| == NUM_LEVELS && (done <==> forall f :: f in old(levels)[level] ==> !Overlaps(f, begin, end))
      ensures done ==> Abs() == old(Abs())
      ensures !done ==> a.DoBegin? && a.r.level == level && Step(old(Abs()), Abs(), a)
      ensures !done && level == 0 ==> forall f :: f in old(levels)[0] && Overlaps(f, begin, end) ==> f in a.r.upper
      ensures CalledFor(level, old(levels)[level], begin, end, called) && if level == 0 then inputs == called else CutToSize(called, maxSize, inputs)
      ensures !done ==> Chosen(old(levels), level, inputs, sizeLimit, choice, a.r.upper, a.r.lower)
    {
      hide Inv, GoodInputs, ValidLevels, Linked, Ascending;
      ghost var s := Abs();
      InvLevels(s);
      hide Chosen, CalledFor, CutToSize;
      var upper, lower;
      upper, lower, called, inputs, choice := CompactRange(levels, level, begin, end, maxSize, sizeLimit);
      a := DoSnapshot;
      done := upper == [];
      if !done {
        a := StartCompaction(level, upper, lower, stopBefore, bigEnough, sizeOf);
      }
    }

    method StartCompaction(level: nat, upper: seq<File>, lower: seq<File>,
                            stopBefore: nat -> bool, bigEnough: seq<Entry> -> bool, sizeOf: seq<Entry> -> nat)
      returns (ghost a: Action)
      requires Valid() && running.None? && level + 1 < NUM_LEVELS && |levels| == NUM_LEVELS
      requires GoodInputs(levels, level, upper, lower)
      modifies this
      ensures Valid() && a.DoBegin? && Step(old(Abs()), Abs(), a)
      ensures a.r.level == level && a.r.upper == upper && a.r.lower == lower
    {
      hide Inv, GoodInputs, ApplyEdit, ValidLevels, StrictlySorted, UniqueVersions, Flatten, Survivors, FilesFrom, GoodOutputs,
           SequencesAtMost, AsSet, InputEntries, Merger.GoodLists, Merger.UnionOf, NonEmptyOutputs, Lists, UserSorted;
      ghost var s := Abs();
      InvLevels(s);
      var smallestSnapshot := if snapshots.Empty() then lastSequence else snapshots.Oldest().number;
      assert smallestSnapshot == SmallestSnapshot(s);
      InputListsGood(levels, level, upper, lower);
      var input := Merger.ReadAll(Lists(upper + lower));
      CompactionBounds(s, level, upper, lower);
      var c := new Compaction(level, levels);
      var outputs := DoCompactionWork(c, input, smallestSnapshot, stopBefore, bigEnough);
      var r := Running(level, upper, lower, levels, smallestSnapshot, FilesFrom(outputs, nextFile, sizeOf));
      OutputsAreGood(r, input, outputs, nextFile, sizeOf);
      running := Some(r);
      nextFile := nextFile + |outputs|;
      a := DoBegin(r);
      StepKeepsInv(s, Abs(), a);
    }

    method InstallCompactionResults()
      requires Valid() && running.Some?
      modifies this
      ensures Valid() && Step(old(Abs()), Abs(), DoFinish)
    {
      hide Inv, ApplyEdit;
      ghost var s := Abs();
      LevelCount(s);
      RunningLevel(s);
      var r := running.value;
      EditLevels(r.level, r.upper, r.lower, r.outputs);
      LogAndApply(CompactionEdit(r.level, r.upper, r.lower, r.outputs));
      running := None;
      StepKeepsInv(s, Abs(), DoFinish);
    }

    // ----- snapshots -----

    method GetSnapshot() returns (snapshot: Snapshot)
      requires Valid()
      modifies snapshots, snapshots.head, snapshots.nodes
      ensures Valid() && Step(old(Abs()), Abs(), DoSnapshot)
      ensures snapshot.number == lastSequence && snapshots.nodes == old(snapshots.nodes) + [snapshot]
    {
      hide Inv, Linked, Ascending, Step;
      ghost var s, last := Abs(), |snapshots.nodes| - 1;
      LevelCount(s);
      assert last >= 0 ==> snapshots.nodes[last].number <= lastSequence by {
        SnapshotsBelow(s);
        assert last >= 0 ==> snapshots.nodes[last].number == s.snapshots[last];
      }
      snapshot := snapshots.New(lastSequence);
      assert Abs() == s.(snapshots := s.snapshots + [s.lastSequence]);
      SnapshotTaken(s, Abs());
    }

    method ReleaseSnapshot(snapshot: Snapshot)
      requires Valid() && snapshot in snapshots.nodes
      modifies snapshots, snapshots.head, snapshots.nodes
      ensures Valid()
      ensures exists i :: 0 <= i < |old(snapshots.nodes)| && old(snapshots.nodes)[i] == snapshot && Step(old(Abs()), Abs(), DoRelease(i))
    {
      hide Inv, Linked, Ascending;
      ghost var s := Abs();
      LevelCount(s);
      ghost var i := snapshots.Delete(snapshot);
      StepKeepsInv(s, Abs(), DoRelease(i));
    }

    // ----- reading -----

    /** Memtable, immutable memtable, files: the first source with a version visible at the
        snapshot answers, and the answer is that of the flat set of all entries. */
    method Get(user: UserKey, snapshot: nat) returns (r: Option<Bytes>)
      requires Valid()
      ensures |levels| == NUM_LEVELS && r == Read(AllEntries(Abs()), user, snapshot)
    {
      hide Inv, ValidLevels, NoCandidate, Read, StrictlySorted, UniqueVersions, AsSet, EntriesFrom;
      InvLevels(Abs());
      MemTables(Abs());
      LayeredRead(Abs(), user, snapshot);
      var found := SeekAndSave(mem, user, snapshot);
      if found == NotFound && imm.Some? {
        found := SeekAndSave(imm.value, user, snapshot);
      }
      if found == NotFound {
        found := Version.Get(levels, user, snapshot);
      }
      r := if found.Found? then Some(found.value) else None;
    }

    /** An iterator at a snapshot, or at the last sequence number: it walks through exactly the
        keys and values that Get returns there. */
    method NewIterator(snapshot: Option<nat>) returns (it: DbIter.DBIter)
      requires Valid()
      ensures fresh(it) && fresh(it.iter) && it.Valid() && it.Position() == None
      ensures it.sequence == if snapshot.Some? then snapshot.value else lastSequence
      ensures |levels| == NUM_LEVELS && AsSet(it.list) == AllEntries(Abs())
    {
      hide Inv, Cover, AllEntries, UniqueVersions, StrictlySorted, Merger.GoodLists, Merger.UnionOf, EntriesFrom;
      SourcesCover(Abs());
      var latest := lastSequence;
      var list := [mem];
      if imm.Some? {
        list := list + [imm.value];
      }
      ghost var mems := list;
      for i := 0 to |levels[0]|
        invariant list == mems + Lists(levels[0][..i])
      {
        assert Lists(levels[0][..i + 1]) == Lists(levels[0][..i]) + [levels[0][i].entries];
        list := list + [levels[0][i].entries];
      }
      assert levels[0][..|levels[0]|] == levels[0];
      for level := 1 to NUM_LEVELS
        invariant list + DeepLists(levels, level) == mems + (Lists(levels[0]) + DeepLists(levels, 1))
      {
        if levels[level] != [] {
          assert list + ([Concatenated(levels[level])] + DeepLists(levels, level + 1))
              == list + [Concatenated(levels[level])] + DeepLists(levels, level + 1);
          list := list + [Concatenated(levels[level])];
        } else {
          assert [] + DeepLists(levels, level + 1) == DeepLists(levels, level + 1);
        }
      }
      assert list == Sources(Abs());
      CoverUnion(list, AllEntries(Abs()));
      it := new DbIter.DBIter(list, if snapshot.Some? then snapshot.value else latest);
    }
  }

  lemma ReopenedState(s: State, s': State)
    requires Inv(s)
    requires s' == State([], None, Replay(s.manifest), s'.manifest, s'.lastSequence, [], s'.nextFile, None)
    requires s'.manifest == s.manifest || s'.manifest == [SnapshotEdit(Replay(s.manifest))]
    requires SequencesAtMost(EntriesFrom(s.levels, 0), s'.lastSequence) && s'.lastSequence <= s.lastSequence
    requires NumbersBelow(s.levels, s'.nextFile) && RecordedBelow(s.manifest, s'.nextFile)
    ensures Inv(s') && Durability.Restarted(s, s') && s'.levels == s.levels
  {
    var levels := s.levels;
    assert ManifestInv(levels, s.manifest, s.nextFile) && ValidLevels(levels);
    hide ManifestInv, ValidLevels, NumbersBelow, SequencesAtMost, EntriesFrom, SnapshotEdit;
    if s'.manifest != s.manifest {
      RecordedInSnapshot(levels, s'.nextFile);
    }
    hide Inv;
    Durability.RestartKeepsInv(s, s');
  }

  lemma RecordedInSnapshot(levels: Levels, nextFile: nat)
    requires ValidLevels(levels) && NumbersBelow(levels, nextFile)
    ensures RecordedBelow([SnapshotEdit(levels)], nextFile)
  {
    forall l | 0 <= l < NUM_LEVELS ensures ReplayAt([SnapshotEdit(levels)], l).added == levels[l] {
      SnapshotAt(levels, l);
    }
    assert |levels| == NUM_LEVELS;
    hide ReplayAt, SnapshotEdit, ValidLevels;
  }

  lemma SnapshotTaken(s: State, s': State)
    requires Inv(s) && |s.levels| == NUM_LEVELS && s' == s.(snapshots := s.snapshots + [s.lastSequence])
    ensures Inv(s') && Step(s, s', DoSnapshot)
  {
    hide Inv;
    StepKeepsInv(s, s', DoSnapshot);
  }

  lemma SnapshotsBelow(s: State)
    requires Inv(s)
    ensures forall i :: 0 <= i < |s.snapshots| ==> s.snapshots[i] <= s.lastSequence
  {
  }

  lemma RunningLevel(s: State)
    requires Inv(s) && s.running.Some?
    ensures s.running.value.level + 1 < NUM_LEVELS
  {
  }

  lemma NoOps(mem: seq<Entry>, first: nat)
    ensures InsertBatch(mem, [], first) == mem
  {
  }

  lemma InsertBatchStep(mem: seq<Entry>, batch: seq<Op>, i: nat, first: nat)
    requires i < |batch|
    ensures InsertBatch(mem, batch[..i + 1], first) == InsertEntry(InsertBatch(mem, batch[..i], first), OpEntry(batch[i], first + i))
  {
    assert batch[..i + 1][..i] == batch[..i];
  }

  lemma EditLevels(level: nat, upper: seq<File>, lower: seq<File>, outputs: seq<File>)
    requires level + 1 < NUM_LEVELS
    ensures ValidEdit(CompactionEdit(level, upper, lower, outputs))
  {
  }

  lemma MemTables(s: State)
    requires Inv(s)
    ensures GoodTable(s.mem) && (s.imm.Some? ==> GoodTable(s.imm.value))
  {
  }

  // The three kinds of sources, newest first.
  lemma LayeredRead(s: State, user: UserKey, t: nat)
    requires Inv(s) && |s.levels| == NUM_LEVELS
    ensures Read(AllEntries(s), user, t) ==
            if !NoCandidate(AsSet(s.mem), user, t) then Read(AsSet(s.mem), user, t)
            else if s.imm.Some? && !NoCandidate(AsSet(s.imm.value), user, t) then Read(AsSet(s.imm.value), user, t)
            else Read(EntriesFrom(s.levels, 0), user, t)
    ensures NoCandidate(EntriesFrom(s.levels, 0), user, t) ==> Read(EntriesFrom(s.levels, 0), user, t) == None
  {
    hide VersionInv, RunningInv, StrictlySorted, UniqueVersions, NewerAbove, EntriesFrom, AsSet, SequencesAtMost, SnapshotInv, Read;
    AllUnique(s);
    var mem, imm, files := AsSet(s.mem), ImmEntries(s.imm), EntriesFrom(s.levels, 0);
    NewerOnUnions(imm, files, mem);
    assert AllEntries(s) == mem + (imm + files);
    SubsetUnique(imm + files, AllEntries(s));
    FirstSourceWins(mem, imm + files, user, t);
    FirstSourceWins(imm, files, user, t);
    NothingToFind(user, t);
    NothingRead(files, user, t);
  }

  lemma NothingRead(entries: set<Entry>, user: UserKey, t: nat)
    ensures NoCandidate(entries, user, t) ==> Read(entries, user, t) == None
  {
  }

  lemma TableRange(s: State, f: File)
    requires Inv(s) && s.imm.Some? && BuiltFrom(f, s.imm.value)
    ensures f.smallest.user <= f.largest.user && ValidLevels(s.levels)
  {
    TableFile(f, s.imm.value, s.lastSequence);
    FileRange(f);
  }

  lemma CompactionBounds(s: State, level: nat, upper: seq<File>, lower: seq<File>)
    requires Inv(s) && |s.levels| == NUM_LEVELS && level + 1 < NUM_LEVELS && GoodInputs(s.levels, level, upper, lower)
    ensures SmallestSnapshot(s) < MAX_SEQUENCE
    ensures SequencesAtMost(InputEntries(upper, lower), MAX_SEQUENCE)
    ensures forall l :: 0 < l < NUM_LEVELS ==> UserSorted(s.levels[l])
  {
    hide ManifestInv, NumbersApart, RunningInv, NewerAbove, UniqueVersions, EntriesFrom, EntriesOf, ListSorted, DistinctNumbers, StrictlySorted;
    GoodInputsAreFiles(s.levels, level, upper, lower);
    SplitVersion(s.levels, level, upper, lower);
    forall l | 0 < l < NUM_LEVELS ensures UserSorted(s.levels[l]) {
      LevelShape(s.levels, l);
      LevelUserSorted(s.levels[l]);
    }
  }

  lemma LevelUserSorted(files: seq<File>)
    requires ValidFiles(files) && SortedDisjoint(files)
    ensures UserSorted(files)
  {
    forall f | f in files ensures f.smallest.user <= f.largest.user {
      FileRange(f);
    }
    forall i, j | 0 <= i < j < |files| ensures files[i].largest.user <= files[j].smallest.user {
      assert Precedes(files[i], files[j]);
    }
  }
}
