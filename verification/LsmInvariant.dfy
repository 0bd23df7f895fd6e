/** Every step of the store keeps its invariant. */
module LsmInvariant {
  import opened DbFormat
  import opened Files
  import opened Version
  import opened VersionBuilder
  import opened Compaction
  import opened CompactionInputs
  import opened LevelMoves
  import opened DropRules
  import opened Edits
  import opened Picked
  import opened Lsm

  lemma InvLevels(s: State)
    requires Inv(s)
    ensures ValidLevels(s.levels) && |s.levels| == NUM_LEVELS
  {
  }

  lemma AllUnique(s: State)
    requires Inv(s)
    ensures UniqueVersions(AllEntries(s))
    ensures SequencesAtMost(AllEntries(s), s.lastSequence)
  {
    hide VersionInv, RunningInv, UniqueVersions, NewerAbove, StrictlySorted, EntriesFrom;
    FilesUnique(s.levels, s.manifest, s.nextFile);
    var mem, imm, files := AsSet(s.mem), ImmEntries(s.imm), EntriesFrom(s.levels, 0);
    ImmUnique(s.imm);
    UniqueUnion(mem, imm);
    NewerOnUnions(mem, imm, files);
    UniqueUnion(mem + imm, files);
  }

  lemma FilesUnique(levels: Levels, manifest: seq<VersionEdit>, nextFile: nat)
    requires VersionInv(levels, manifest, nextFile)
    ensures UniqueVersions(EntriesFrom(levels, 0))
  {
    VersionsUnique(levels, 0);
  }

  lemma ImmUnique(imm: Option<seq<Entry>>)
    requires imm.Some? ==> GoodTable(imm.value)
    ensures UniqueVersions(ImmEntries(imm))
  {
  }

  // ----- writes and memtable switches -----

  lemma WriteKeepsInv(s: State, s': State, batch: seq<Op>)
    requires Inv(s) && Write(s, s', batch)
    ensures Inv(s')
    ensures AllEntries(s') == AllEntries(s) + BatchEntries(batch, s.lastSequence + 1)
  {
    hide VersionInv, RunningInv, GoodTable, BatchEntries, InsertBatch, AsSet, EntriesFrom;
    BatchInserted(s.mem, batch, s.lastSequence);
    BatchSequences(batch, s.lastSequence + 1);
  }

  lemma SwitchKeepsInv(s: State, s': State)
    requires Inv(s) && SwitchMemTable(s, s')
    ensures Inv(s')
    ensures AllEntries(s') == AllEntries(s)
  {
    hide VersionInv, RunningInv, EntriesFrom;
  }

  // ----- snapshots -----

  lemma TakeSnapshotKeepsInv(s: State, s': State)
    requires Inv(s) && TakeSnapshot(s, s')
    ensures Inv(s')
  {
    hide VersionInv, RunningInv, MemInv;
  }

  lemma ReleaseSnapshotKeepsInv(s: State, s': State, i: nat)
    requires Inv(s) && ReleaseSnapshot(s, s', i)
    ensures Inv(s')
  {
    hide VersionInv, RunningInv, MemInv;
  }

  // ----- flushes -----

  lemma TableFile(f: File, entries: seq<Entry>, lastSequence: nat)
    requires BuiltFrom(f, entries) && GoodTable(entries)
    requires SequencesAtMost(AsSet(entries), lastSequence) && lastSequence < MAX_SEQUENCE
    ensures f.Valid() && UniqueVersions(AsSet(f.entries)) && AsSet(f.entries) == AsSet(entries)
  {
    forall e | e in f.entries ensures e.key.seqno <= MAX_SEQUENCE {
      assert e in AsSet(entries);
    }
  }

  lemma FilesAreInLevels(levels: Levels, i: nat)
    requires i < |levels|
    ensures EntriesOf(levels[i]) <= EntriesFrom(levels, 0)
  {
    forall e | e in EntriesOf(levels[i]) ensures e in EntriesFrom(levels, 0) {
      InEntriesFrom(levels, 0, e);
    }
  }

  lemma AddedEntries(levels: Levels, level: nat, f: File, levels': Levels)
    requires |levels| == NUM_LEVELS && level < NUM_LEVELS && Added(levels, level, f, levels')
    requires EntriesOf(levels'[level]) == AsSet(f.entries) + EntriesOf(levels[level])
    ensures EntriesFrom(levels', 0) == AsSet(f.entries) + EntriesFrom(levels, 0)
  {
    hide EntriesOf, ListSorted;
    forall e ensures e in EntriesFrom(levels', 0) <==> e in AsSet(f.entries) + EntriesFrom(levels, 0) {
      InEntriesFrom(levels', 0, e);
      InEntriesFrom(levels, 0, e);
    }
  }

  // Installing one table below nothing that shares its keys.
  lemma FlushFile(levels: Levels, manifest: seq<VersionEdit>, nextFile: nat, level: nat, f: File)
    requires VersionInv(levels, manifest, nextFile) && level <= MAX_MEM_COMPACT_LEVEL
    requires f.Valid() && UniqueVersions(AsSet(f.entries)) && f.number == nextFile
    requires NewerAbove(AsSet(f.entries), EntriesFrom(levels, 0))
    requires level > 0 ==> ClearDownTo(levels, level, f.smallest.user, f.largest.user)
    ensures var edit := FlushEdit(level, [f]);
            var levels' := ApplyEdit(levels, edit);
            && VersionInv(levels', manifest + [edit], nextFile + 1)
            && Added(levels, level, f, levels')
            && EntriesFrom(levels', 0) == AsSet(f.entries) + EntriesFrom(levels, 0)
  {
    hide ValidLevel, UniqueVersions, StrictlySorted, NewerAbove, EntriesOf, EntriesFrom, ListSorted, ManifestInv, NumbersApart;
    var levels' := ApplyEdit(levels, FlushEdit(level, [f]));
    FlushIsAdded(levels, level, f);
    forall i | 0 <= i < NUM_LEVELS ensures NewerAbove(AsSet(f.entries), EntriesOf(levels[i])) {
      FilesAreInLevels(levels, i);
      NewerOnSubsets(AsSet(f.entries), EntriesFrom(levels, 0), AsSet(f.entries), EntriesOf(levels[i]));
    }
    AddFlushed(levels, level, f, levels');
    AddedEntries(levels, level, f, levels');
    FlushNumbers(levels, level, f, levels', nextFile);
    FlushManifest(levels, manifest, nextFile, level, f);
  }

  lemma FlushNumbers(levels: Levels, level: nat, f: File, levels': Levels, nextFile: nat)
    requires |levels| == NUM_LEVELS && level < NUM_LEVELS && Added(levels, level, f, levels') && f.number == nextFile
    requires NumbersApart(levels) && NumbersBelow(levels, nextFile)
    ensures NumbersApart(levels') && NumbersBelow(levels', nextFile + 1)
  {
    hide ListSorted;
  }

  lemma FlushManifest(levels: Levels, manifest: seq<VersionEdit>, nextFile: nat, level: nat, f: File)
    requires ManifestInv(levels, manifest, nextFile) && |levels| == NUM_LEVELS && level < NUM_LEVELS && f.number == nextFile
    requires NumbersBelow(levels, nextFile)
    requires Added(levels, level, f, ApplyEdit(levels, FlushEdit(level, [f])))
    ensures ManifestInv(ApplyEdit(levels, FlushEdit(level, [f])), manifest + [FlushEdit(level, [f])], nextFile + 1)
  {
    hide ListSorted, Replay, ApplyEdit, Tagged;
    ManifestStep(levels, manifest, nextFile, {}, level, [f], ApplyEdit(levels, FlushEdit(level, [f])), nextFile + 1);
  }

  lemma FlushNothing(levels: Levels, manifest: seq<VersionEdit>, nextFile: nat, level: nat)
    requires VersionInv(levels, manifest, nextFile) && level < NUM_LEVELS
    ensures ApplyEdit(levels, FlushEdit(level, [])) == levels
    ensures VersionInv(levels, manifest + [FlushEdit(level, [])], nextFile + 1)
  {
    hide ValidLevel, NewerAbove, ApplyEdit;
    var edit := FlushEdit(level, []);
    forall l | 0 <= l < NUM_LEVELS ensures ApplyEdit(levels, edit)[l] == levels[l] {
      NewAtTagged(level, [], l);
      LevelListSorted(levels, l);
      ApplyEditAt(levels, edit, l);
      SortedListUnique(ApplyEdit(levels, edit)[l], levels[l]);
    }
    EmptyEditManifest(levels, manifest, nextFile, level);
  }

  lemma EmptyEditManifest(levels: Levels, manifest: seq<VersionEdit>, nextFile: nat, level: nat)
    requires ManifestInv(levels, manifest, nextFile) && |levels| == NUM_LEVELS && level < NUM_LEVELS
    requires ApplyEdit(levels, FlushEdit(level, [])) == levels
    ensures ManifestInv(levels, manifest + [FlushEdit(level, [])], nextFile + 1)
  {
    hide ListSorted, Replay, ApplyEdit, Tagged;
    ManifestStep(levels, manifest, nextFile, {}, level, [], levels, nextFile + 1);
  }

  // ----- a flush while a compaction runs -----

  lemma FlushKeepsOutside(r: Running, levels: Levels, level: nat, f: File, levels': Levels)
    requires |levels| == NUM_LEVELS && r.level + 1 < NUM_LEVELS && level < NUM_LEVELS && Added(levels, level, f, levels')
    requires forall g :: g in r.upper ==> g in levels[r.level]
    requires forall g :: g in r.lower ==> g in levels[r.level + 1]
    requires NewerAbove(AsSet(f.entries), EntriesFrom(levels, 0))
    requires Outside(levels, r.level, r.upper, r.lower) !! InputEntries(r.upper, r.lower)
    requires OnlyHiddenBelow(EntriesFrom(levels, 0), InputEntries(r.upper, r.lower), LeftOut(levels, r), r.inputVersion, r.level)
    requires EntriesFrom(levels', 0) == AsSet(f.entries) + EntriesFrom(levels, 0)
    ensures Outside(levels', r.level, r.upper, r.lower) !! InputEntries(r.upper, r.lower)
    ensures OnlyHiddenBelow(EntriesFrom(levels', 0), InputEntries(r.upper, r.lower), LeftOut(levels', r), r.inputVersion, r.level)
    ensures LeftOut(levels, r) <= LeftOut(levels', r) <= LeftOut(levels, r) + AsSet(f.entries)
  {
    hide EntriesFrom, BaseLevel, ListSorted, InputEntries, NewerAbove, Outside, EntriesOf;
    var inputs := InputEntries(r.upper, r.lower);
    SplitVersion(levels, r.level, r.upper, r.lower);
    AddedOutside(r, levels, level, f, levels');
    LeftOutIsOutside(levels', r.level, r.upper, r.lower);
    forall d, e | d in AsSet(f.entries) && e in inputs && d.key.user == e.key.user ensures d.key.seqno > e.key.seqno {
      NewerPair(AsSet(f.entries), EntriesFrom(levels, 0), d, e);
    }
  }

  lemma NewerPair(upper: set<Entry>, lower: set<Entry>, d: Entry, e: Entry)
    requires NewerAbove(upper, lower) && d in upper && e in lower && d.key.user == e.key.user
    ensures d.key.seqno > e.key.seqno
  {
  }

  lemma AddedOutside(r: Running, levels: Levels, level: nat, f: File, levels': Levels)
    requires |levels| == NUM_LEVELS && r.level + 1 < NUM_LEVELS && level < NUM_LEVELS && Added(levels, level, f, levels')
    requires NewerAbove(AsSet(f.entries), EntriesFrom(levels, 0))
    requires forall g :: g in r.upper ==> g in levels[r.level]
    requires forall g :: g in r.lower ==> g in levels[r.level + 1]
    ensures Outside(levels', r.level, r.upper, r.lower) <= Outside(levels, r.level, r.upper, r.lower) + AsSet(f.entries)
    ensures LeftOut(levels, r) <= LeftOut(levels', r) <= LeftOut(levels, r) + AsSet(f.entries)
    ensures AsSet(f.entries) !! InputEntries(r.upper, r.lower)
  {
    SplitVersion(levels, r.level, r.upper, r.lower);
    hide AsSet, ListSorted, EntriesFrom, NewerAbove, EntriesOf, InputEntries, Without;
    forall l | 0 <= l < NUM_LEVELS ensures EntriesOf(levels'[l]) <= EntriesOf(levels[l]) + AsSet(f.entries) {
      AddedToLevel(levels, level, f, levels', l);
    }
    SameOrAddedWithout(levels[r.level], f, levels'[r.level], r.upper);
    SameOrAddedWithout(levels[r.level + 1], f, levels'[r.level + 1], r.lower);
    NewerIsApart(AsSet(f.entries), EntriesFrom(levels, 0), InputEntries(r.upper, r.lower));
  }

  lemma AddedToLevel(levels: Levels, level: nat, f: File, levels': Levels, l: nat)
    requires |levels| == NUM_LEVELS && level < NUM_LEVELS && l < NUM_LEVELS && Added(levels, level, f, levels')
    ensures EntriesOf(levels'[l]) <= EntriesOf(levels[l]) + AsSet(f.entries)
  {
    hide AsSet, ListSorted;
    EntriesOfOne(f);
    EntriesOfConcat(levels[l], [f]);
    EntriesOfSubset(levels'[l], levels[l] + [f]);
  }

  lemma NewerIsApart(upper: set<Entry>, lower: set<Entry>, part: set<Entry>)
    requires NewerAbove(upper, lower) && part <= lower
    ensures upper !! part
  {
    if e :| e in upper && e in part {
      NewerPair(upper, lower, e, e);
    }
  }

  lemma SameOrAddedWithout(files: seq<File>, f: File, files': seq<File>, chosen: seq<File>)
    requires files' == files || forall g :: g in files' <==> g in files || g == f
    ensures EntriesOf(Without(files, chosen)) <= EntriesOf(Without(files', chosen)) <= EntriesOf(Without(files, chosen)) + AsSet(f.entries)
  {
    hide AsSet;
    EntriesOfOne(f);
    EntriesOfConcat(Without(files, chosen), [f]);
    EntriesOfSubset(Without(files', chosen), Without(files, chosen) + [f]);
    EntriesOfSubset(Without(files, chosen), Without(files', chosen));
  }

  lemma FlushKeepsRunning(r: Running, levels: Levels, manifest: seq<VersionEdit>, nextFile: nat, level: nat, f: File)
    requires VersionInv(levels, manifest, nextFile) && level <= MAX_MEM_COMPACT_LEVEL
    requires RunningInv(r, levels, manifest, nextFile)
    requires f.number == nextFile && NewerAbove(AsSet(f.entries), EntriesFrom(levels, 0))
    requires Added(levels, level, f, ApplyEdit(levels, FlushEdit(level, [f])))
    requires EntriesFrom(ApplyEdit(levels, FlushEdit(level, [f])), 0) == AsSet(f.entries) + EntriesFrom(levels, 0)
    requires ClearOfRunning(Some(r), level, [f])
    ensures RunningInv(r, ApplyEdit(levels, FlushEdit(level, [f])), manifest + [FlushEdit(level, [f])], nextFile + 1)
    ensures LeftOut(ApplyEdit(levels, FlushEdit(level, [f])), r) <= LeftOut(levels, r) + AsSet(f.entries)
  {
    hide ValidLevel, ApplyEdit, EntriesFrom, EntriesOf, ListSorted, Outside, OnlyHiddenBelow, ReplayAt, Tagged, AsSet,
         ValidFiles, SortedDisjoint, SurvivingEntries, DistinctNumbers, NewerAbove, FitsIn, Replay;
    var levels' := ApplyEdit(levels, FlushEdit(level, [f]));
    FlushKeepsOutside(r, levels, level, f, levels');
    SameOrAddedWithout(levels[r.level], f, levels'[r.level], r.upper);
    SplitVersion(levels, r.level, r.upper, r.lower);
    var inputs := InputEntries(r.upper, r.lower);
    NewerOnSubsets(AsSet(f.entries), EntriesFrom(levels, 0), AsSet(f.entries), inputs);
    NewerOnUnions(EntriesOf(Without(levels[r.level], r.upper)), AsSet(f.entries), inputs);
    NewerOnSubsets(EntriesOf(Without(levels[r.level], r.upper)) + AsSet(f.entries), inputs,
                   EntriesOf(Without(levels'[r.level], r.upper)), inputs);
    FlushKeepsFit(r, levels, level, f, levels', nextFile);
    FlushKeepsNumbers(r, levels, manifest, nextFile, level, f);
  }

  lemma FlushKeepsFit(r: Running, levels: Levels, level: nat, f: File, levels': Levels, nextFile: nat)
    requires |levels| == NUM_LEVELS && r.level + 1 < NUM_LEVELS && level < NUM_LEVELS && Added(levels, level, f, levels')
    requires FitsIn(Without(levels[r.level + 1], r.lower), r.outputs)
    requires NumbersBetween(r.outputs, 0, nextFile) && f.number == nextFile
    requires ClearOfRunning(Some(r), level, [f])
    ensures FitsIn(Without(levels'[r.level + 1], r.lower), r.outputs)
  {
    hide ListSorted, Apart;
    forall g, o | g in Without(levels'[r.level + 1], r.lower) && o in r.outputs ensures Apart(g, o) && g.number != o.number {
      assert g in Without(levels[r.level + 1], r.lower) || (g == f && level == r.level + 1);
    }
  }

  lemma FlushKeepsNumbers(r: Running, levels: Levels, manifest: seq<VersionEdit>, nextFile: nat, level: nat, f: File)
    requires ManifestInv(levels, manifest, nextFile) && |levels| == NUM_LEVELS && level < NUM_LEVELS && f.number == nextFile
    requires Added(levels, level, f, ApplyEdit(levels, FlushEdit(level, [f])))
    requires NumbersBetween(r.outputs, 0, nextFile) && NumbersNeverRecorded(manifest, r.outputs)
    requires forall l :: 0 <= l < NUM_LEVELS ==> NumbersUnused(levels[l], r.outputs)
    ensures forall l :: 0 <= l < NUM_LEVELS ==> NumbersUnused(ApplyEdit(levels, FlushEdit(level, [f]))[l], r.outputs)
    ensures NumbersNeverRecorded(manifest + [FlushEdit(level, [f])], r.outputs)
  {
    hide ApplyEdit, ListSorted, ReplayAt, Tagged, Replay;
    forall l | 0 <= l < NUM_LEVELS
      ensures forall g :: g in ReplayAt(manifest + [FlushEdit(level, [f])], l).added <==> g in ReplayAt(manifest, l).added || (l == level && g == f)
    {
      ManifestAdded(manifest, FlushEdit(level, [f]), level, [f], l);
    }
  }

  lemma FlushKeepsInv(s: State, s': State, level: nat, files: seq<File>)
    requires Inv(s) && Flush(s, s', level, files) && ClearOfRunning(s.running, level, files)
    ensures Inv(s')
    ensures AllEntries(s') == AllEntries(s)
    ensures s.running.Some? ==> LeftOut(s'.levels, s.running.value) <= LeftOut(s.levels, s.running.value) + ImmEntries(s.imm)
  {
    hide VersionInv, RunningInv, StrictlySorted, UniqueVersions, NewerAbove, EntriesFrom, ApplyEdit, ClearDownTo, ClearOfRunning, AsSet, EntriesOf;
    LevelCount(s);
    if s.imm.value == [] {
      FlushNothing(s.levels, s.manifest, s.nextFile, level);
      EmptySet();
      NothingNewer(AsSet(s.mem), EntriesFrom(s.levels, 0));
      if s.running.Some? {
        FlushNothingKeepsRunning(s.running.value, s.levels, s.manifest, s.nextFile, level);
      }
    } else {
      var f := files[0];
      assert files == [f];
      TableFile(f, s.imm.value, s.lastSequence);
      FlushFile(s.levels, s.manifest, s.nextFile, level, f);
      NewerOnUnions(AsSet(f.entries), EntriesFrom(s.levels, 0), AsSet(s.mem));
      NothingNewer(AsSet(s.mem), EntriesFrom(s'.levels, 0));
      if s.running.Some? {
        FlushKeepsRunning(s.running.value, s.levels, s.manifest, s.nextFile, level, f);
      }
    }
  }

  lemma LevelCount(s: State)
    requires Inv(s)
    ensures |s.levels| == NUM_LEVELS
  {
  }

  lemma EmptySet()
    ensures AsSet([]) == {}
  {
  }

  lemma NothingNewer(mem: set<Entry>, files: set<Entry>)
    ensures NewerAbove(mem, {}) && NewerAbove({}, files)
  {
  }

  lemma FlushNothingKeepsRunning(r: Running, levels: Levels, manifest: seq<VersionEdit>, nextFile: nat, level: nat)
    requires VersionInv(levels, manifest, nextFile) && level < NUM_LEVELS
    requires RunningInv(r, levels, manifest, nextFile)
    ensures RunningInv(r, levels, manifest + [FlushEdit(level, [])], nextFile + 1)
  {
    hide ValidLevels, EntriesFrom, EntriesOf, ListSorted, Outside, OnlyHiddenBelow, ReplayAt, Tagged, Replay, NewerAbove, FitsIn;
    forall l | 0 <= l < NUM_LEVELS
      ensures forall g :: g in ReplayAt(manifest + [FlushEdit(level, [])], l).added <==> g in ReplayAt(manifest, l).added
    {
      ManifestAdded(manifest, FlushEdit(level, []), level, [], l);
    }
  }

  // ----- compactions -----

  lemma BeginKeepsInv(s: State, s': State, r: Running)
    requires Inv(s) && BeginCompaction(s, s', r)
    ensures Inv(s')
    ensures AllEntries(s') == AllEntries(s)
  {
    hide ValidLevels, GoodInputs, RunningInv, MemInv, GoodOutputs, EntriesFrom, NumbersApart, Replay, ReplayAt;
    BeginRunning(s.levels, s.manifest, s.nextFile, r, s'.nextFile);
  }

  lemma BeginRunning(levels: Levels, manifest: seq<VersionEdit>, nextFile: nat, r: Running, nextFile': nat)
    requires VersionInv(levels, manifest, nextFile) && nextFile <= nextFile'
    requires r.level + 1 < NUM_LEVELS && GoodInputs(levels, r.level, r.upper, r.lower) && r.inputVersion == levels
    requires GoodOutputs(r, nextFile, nextFile')
    ensures RunningInv(r, levels, manifest, nextFile')
  {
    hide ValidLevel, GoodInputs, UniqueVersions, NewerAbove, EntriesOf, EntriesFrom, ListSorted, Outside, OnlyHiddenBelow,
         ReplayAt, Replay, ValidFiles, SortedDisjoint, SurvivingEntries, DistinctNumbers, FitsIn, NumbersApart;
    GoodInputsAreFiles(levels, r.level, r.upper, r.lower);
    PickedOnlyHidden(levels, r.level, r.upper, r.lower);
    SurvivorsAreInputs(r);
    OutputsFit(levels, r.level, r.upper, r.lower, r.outputs);
    InputsLeaveNewer(levels, r.level, r.upper, r.lower);
    forall e | e in Outside(levels, r.level, r.upper, r.lower) && e in InputEntries(r.upper, r.lower) ensures false {
      OutsideOfInputs(levels, r.level, r.upper, r.lower, e, e);
    }
  }

  lemma SurvivorsAreInputs(r: Running)
    ensures SurvivingEntries(r) <= InputEntries(r.upper, r.lower)
  {
  }

  lemma InputsLeaveNewer(levels: Levels, level: nat, upper: seq<File>, lower: seq<File>)
    requires ValidLevels(levels) && level + 1 < NUM_LEVELS && GoodInputs(levels, level, upper, lower)
    ensures NewerAbove(EntriesOf(Without(levels[level], upper)), InputEntries(upper, lower))
  {
    hide ValidLevel, UniqueVersions, NewerAbove, EntriesOf, VersionClosed, UserRange;
    LevelShape(levels, level);
    LeftOutNewer(level, levels[level], upper);
    EntriesOfSubset(Without(levels[level], upper), levels[level]);
    EntriesOfSubset(lower, levels[level + 1]);
    NewerOnSubsets(EntriesOf(levels[level]), EntriesOf(levels[level + 1]), EntriesOf(Without(levels[level], upper)), EntriesOf(lower));
    NewerOnUnions(EntriesOf(upper), EntriesOf(lower), EntriesOf(Without(levels[level], upper)));
  }

  lemma FinishVersion(levels: Levels, manifest: seq<VersionEdit>, nextFile: nat, r: Running)
    requires VersionInv(levels, manifest, nextFile) && RunningInv(r, levels, manifest, nextFile)
    ensures var edit := CompactionEdit(r.level, r.upper, r.lower, r.outputs);
            var levels' := ApplyEdit(levels, edit);
            && VersionInv(levels', manifest + [edit], nextFile)
            && EntriesFrom(levels', 0) == Outside(levels, r.level, r.upper, r.lower) + SurvivingEntries(r)
            && EntriesFrom(levels, 0) == Outside(levels, r.level, r.upper, r.lower) + InputEntries(r.upper, r.lower)
  {
    hide ValidLevel, UniqueVersions, NewerAbove, EntriesOf, EntriesFrom, ListSorted, Outside, OnlyHiddenBelow, ReplayAt,
         Replay, StrictlySorted, SurvivingEntries, FitsIn, ApplyEdit, NumbersApart, ManifestInv, NumbersNeverRecorded, Tagged, Deletions;
    var levels' := ApplyEdit(levels, CompactionEdit(r.level, r.upper, r.lower, r.outputs));
    CompactionIsMoved(levels, r.level, r.upper, r.lower, r.outputs);
    SurvivorsAreInputs(r);
    OutputsApart(r.outputs);
    var left := EntriesOf(Without(levels[r.level], r.upper));
    NewerOnSubsets(left, InputEntries(r.upper, r.lower), left, EntriesOf(r.outputs));
    PushDown(levels, r.level, r.upper, r.lower, r.outputs, levels');
    MovedEntries(levels, r.level, r.upper, r.lower, r.outputs, levels');
    SplitVersion(levels, r.level, r.upper, r.lower);
    MovedNumbers(levels, r.level, r.upper, r.lower, r.outputs, levels', nextFile);
    FinishManifest(levels, manifest, nextFile, r);
  }

  lemma OutputsApart(outputs: seq<File>)
    requires SortedDisjoint(outputs) && DistinctNumbers(outputs)
    ensures PairwiseApart(outputs)
  {
  }

  lemma MovedNumbers(levels: Levels, level: nat, upper: seq<File>, lower: seq<File>, outputs: seq<File>, levels': Levels, nextFile: nat)
    requires |levels| == NUM_LEVELS && level + 1 < NUM_LEVELS && Moved(levels, level, upper, lower, outputs, levels')
    requires NumbersApart(levels) && NumbersBelow(levels, nextFile) && NumbersBetween(outputs, 0, nextFile)
    requires forall l :: 0 <= l < NUM_LEVELS ==> NumbersUnused(levels[l], outputs)
    ensures NumbersApart(levels') && NumbersBelow(levels', nextFile)
  {
    hide ListSorted;
  }

  lemma FinishManifest(levels: Levels, manifest: seq<VersionEdit>, nextFile: nat, r: Running)
    requires |levels| == NUM_LEVELS && r.level + 1 < NUM_LEVELS && ManifestInv(levels, manifest, nextFile)
    requires var levels' := ApplyEdit(levels, CompactionEdit(r.level, r.upper, r.lower, r.outputs));
             Moved(levels, r.level, r.upper, r.lower, r.outputs, levels')
    requires DistinctNumbers(r.outputs) && NumbersBetween(r.outputs, 0, nextFile) && NumbersNeverRecorded(manifest, r.outputs)
    requires forall l :: 0 <= l < NUM_LEVELS ==> NumbersUnused(levels[l], r.outputs)
    ensures var edit := CompactionEdit(r.level, r.upper, r.lower, r.outputs);
            ManifestInv(ApplyEdit(levels, edit), manifest + [edit], nextFile)
  {
    hide ListSorted, Replay, ApplyEdit, Tagged, Deletions, ReplayAt, DistinctNumbers, ManifestInv;
    var edit := CompactionEdit(r.level, r.upper, r.lower, r.outputs);
    ManifestStep(levels, manifest, nextFile, edit.deletedFiles, r.level + 1, r.outputs, ApplyEdit(levels, edit), nextFile);
  }

  lemma MemInvShrinks(mem: seq<Entry>, imm: Option<seq<Entry>>, files: set<Entry>, files': set<Entry>, lastSequence: nat)
    requires MemInv(mem, imm, files, lastSequence) && files' <= files
    ensures MemInv(mem, imm, files', lastSequence)
  {
  }

  /** Installing the outputs leaves exactly the undropped entries. */
  lemma FinishKeepsInv(s: State, s': State)
    requires Inv(s) && FinishCompaction(s, s')
    ensures Inv(s')
    ensures var r := s.running.value;
            AllEntries(s') == AfterDrops(AllEntries(s), InputEntries(r.upper, r.lower), r.inputVersion, r.level, r.smallestSnapshot)
    ensures var r := s.running.value;
            && UniqueVersions(AllEntries(s))
            && OnlyHiddenBelow(AllEntries(s), InputEntries(r.upper, r.lower), LeftOut(s.levels, r), r.inputVersion, r.level)
  {
    hide VersionInv, MemInv, UniqueVersions, EntriesFrom, ApplyEdit, AsSet, EntriesOf, Outside, Dropped, NewerAbove, FitsIn, GoodOutputs, BaseLevel;
    LevelCount(s);
    var r := s.running.value;
    FinishVersion(s.levels, s.manifest, s.nextFile, r);
    SurvivorsAreInputs(r);
    MemInvShrinks(s.mem, s.imm, EntriesFrom(s.levels, 0), EntriesFrom(s'.levels, 0), s.lastSequence);
    AllUnique(s);
    MemNotInFiles(s.mem, s.imm, EntriesFrom(s.levels, 0), s.lastSequence);
  }

  lemma MemNotInFiles(mem: seq<Entry>, imm: Option<seq<Entry>>, files: set<Entry>, lastSequence: nat)
    requires MemInv(mem, imm, files, lastSequence)
    ensures AsSet(mem) !! files && ImmEntries(imm) !! files
    ensures forall d, e :: d in AsSet(mem) + ImmEntries(imm) && e in files && d.key.user == e.key.user ==> d.key.seqno > e.key.seqno
  {
    hide StrictlySorted, UniqueVersions;
  }

  lemma MoveKeepsInv(s: State, s': State, level: nat, f: File)
    requires Inv(s) && TrivialMove(s, s', level, f)
    ensures Inv(s')
    ensures AllEntries(s') == AllEntries(s)
  {
    hide VersionInv, MemInv, GoodInputs, EntriesFrom, ApplyEdit;
    MoveVersion(s.levels, s.manifest, s.nextFile, level, f);
  }

  lemma MoveVersion(levels: Levels, manifest: seq<VersionEdit>, nextFile: nat, level: nat, f: File)
    requires VersionInv(levels, manifest, nextFile) && level + 1 < NUM_LEVELS && GoodInputs(levels, level, [f], [])
    ensures var edit := CompactionEdit(level, [f], [], [f]);
            && VersionInv(ApplyEdit(levels, edit), manifest + [edit], nextFile)
            && EntriesFrom(ApplyEdit(levels, edit), 0) == EntriesFrom(levels, 0)
  {
    hide ValidLevel, GoodInputs, UniqueVersions, NewerAbove, EntriesOf, EntriesFrom, ListSorted, Outside, ReplayAt,
         Replay, StrictlySorted, ApplyEdit, NumbersApart, ManifestInv, Tagged, Deletions, FitsIn;
    var levels' := ApplyEdit(levels, CompactionEdit(level, [f], [], [f]));
    GoodInputsAreFiles(levels, level, [f], []);
    assert f in [f];
    MoveNumbersUnused(levels, level, f);
    CompactionIsMoved(levels, level, [f], [], [f]);
    LevelShape(levels, level);
    NoEntries();
    OutputsFit(levels, level, [f], [], [f]);
    InputsLeaveNewer(levels, level, [f], []);
    assert InputEntries([f], []) == EntriesOf([f]);
    PushDown(levels, level, [f], [], [f], levels');
    MovedEntries(levels, level, [f], [], [f], levels');
    SplitVersion(levels, level, [f], []);
    MoveNumbers(levels, level, f, levels', nextFile);
    MoveManifest(levels, manifest, nextFile, level, f);
  }

  lemma MoveNumbersUnused(levels: Levels, level: nat, f: File)
    requires |levels| == NUM_LEVELS && level + 1 < NUM_LEVELS && f in levels[level] && NumbersApart(levels)
    ensures NumbersUnused(levels[level + 1], [f])
  {
  }

  lemma MoveNumbers(levels: Levels, level: nat, f: File, levels': Levels, nextFile: nat)
    requires ValidLevels(levels) && level + 1 < NUM_LEVELS && Moved(levels, level, [f], [], [f], levels') && f in levels[level]
    requires NumbersApart(levels) && NumbersBelow(levels, nextFile)
    ensures NumbersApart(levels') && NumbersBelow(levels', nextFile)
  {
    hide ListSorted, ValidLevel, NewerAbove, DistinctNumbers;
    LevelListSorted(levels, level);
    DistinctIdentify(levels[level]);
    forall i, g | 0 <= i < |levels'| && g in levels'[i] ensures g in levels[i] || (i == level + 1 && g == f) {
      if i == level + 1 {
        assert g in levels[level + 1] || g in [f];
      }
    }
  }

  lemma MoveManifest(levels: Levels, manifest: seq<VersionEdit>, nextFile: nat, level: nat, f: File)
    requires ValidLevels(levels) && level + 1 < NUM_LEVELS && ManifestInv(levels, manifest, nextFile) && f in levels[level]
    requires Moved(levels, level, [f], [], [f], ApplyEdit(levels, CompactionEdit(level, [f], [], [f])))
    requires NumbersApart(levels) && NumbersBelow(levels, nextFile)
    ensures var edit := CompactionEdit(level, [f], [], [f]);
            ManifestInv(ApplyEdit(levels, edit), manifest + [edit], nextFile)
  {
    hide ListSorted, Replay, ApplyEdit, Tagged, Deletions, ReplayAt, ValidLevel, NewerAbove;
    var edit := CompactionEdit(level, [f], [], [f]);
    LevelListSorted(levels, level);
    DistinctIdentify(levels[level]);
    ManifestStep(levels, manifest, nextFile, edit.deletedFiles, level + 1, [f], ApplyEdit(levels, edit), nextFile);
  }
}
