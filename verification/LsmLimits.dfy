/** Where the code leaves a hole: which runs cannot bring a deleted value back, and exactly when a
    flush beside a compaction breaks a level.  LsmHoles shows runs that fall into both. */
module LsmLimits {
  import opened DbFormat
  import opened Files
  import opened Version
  import opened VersionBuilder
  import opened Compaction
  import opened CompactionInputs
  import opened LevelMoves
  import opened DropRules
  import opened Edits
  import opened Picked
  import opened Lsm
  import opened LsmInvariant
  import opened LsmTheorems

  // ----- runs that cannot resurrect -----

  // Every compaction starts with inputs whose next-level files end at a user-key boundary.
  ghost predicate ClosedRun(states: seq<State>, actions: seq<Action>) {
    && ClearRun(states, actions) && LeftOutIsNewer(states[0])
    && forall i :: 0 <= i < |actions| && actions[i].DoBegin? ==>
         && |states[i].levels| == NUM_LEVELS && actions[i].r.level + 1 < NUM_LEVELS
         && NextLevelClosed(states[i].levels, actions[i].r.level, actions[i].r.lower)
  }

  ghost predicate LeftOutIsNewer(s: State) {
    s.running.Some? && |s.levels| == NUM_LEVELS && s.running.value.level + 1 < NUM_LEVELS ==>
      NewerAbove(LeftOut(s.levels, s.running.value), InputEntries(s.running.value.upper, s.running.value.lower))
  }

  lemma StepKeepsLeftOutNewer(s: State, s': State, a: Action)
    requires Inv(s) && Step(s, s', a) && Clear(s, a) && LeftOutIsNewer(s)
    requires a.DoBegin? ==> a.r.level + 1 < NUM_LEVELS && NextLevelClosed(s.levels, a.r.level, a.r.lower)
    ensures LeftOutIsNewer(s')
  {
    hide SnapshotInv, UniqueVersions, EntriesFrom, GoodInputs, ApplyEdit, AsSet, NewerAbove, GoodOutputs, InsertBatch,
         GoodTable, SequencesAtMost, NextLevelClosed, StrictlySorted, ValidLevel, ManifestInv, NumbersApart,
         OnlyHiddenBelow, Outside, FitsIn, NumbersBelow, NumbersNeverRecorded;
    match a {
      case DoFlush(level, files) =>
        FlushKeepsInv(s, s', level, files);
        if s.running.Some? {
          var r := s.running.value;
          var inputs := InputEntries(r.upper, r.lower);
          SplitVersion(s.levels, r.level, r.upper, r.lower);
          NewerOnSubsets(ImmEntries(s.imm), EntriesFrom(s.levels, 0), ImmEntries(s.imm), inputs);
          NewerOnUnions(LeftOut(s.levels, r), ImmEntries(s.imm), inputs);
          NewerOnSubsets(LeftOut(s.levels, r) + ImmEntries(s.imm), inputs, LeftOut(s'.levels, r), inputs);
        }
      case DoBegin(r) => NextLevelClosedNewer(s.levels, r.level, r.upper, r.lower);
      case _ =>
    }
  }

  lemma LeftOutNewerIsSafe(s: State)
    requires Inv(s) && LeftOutIsNewer(s) && s.running.Some?
    ensures NoResurrection(s)
  {
    hide VersionInv, MemInv, SnapshotInv, NewerAbove, AllEntries, NothingResurfaces;
    LevelCount(s);
    var r := s.running.value;
    NewerLeftOutSuffices(AllEntries(s), InputEntries(r.upper, r.lower), LeftOut(s.levels, r), r.inputVersion, r.level, r.smallestSnapshot);
  }

  lemma {:induction false} ClosedRunLeftOut(states: seq<State>, actions: seq<Action>, n: nat)
    requires ClosedRun(states, actions) && n < |states|
    ensures LeftOutIsNewer(states[n])
  {
    hide Inv, Step, NextLevelClosed, ClearOfRunning, NewerAbove;
    if n > 0 {
      ClosedRunLeftOut(states, actions, n - 1);
      RunKeepsInv(states, actions, n - 1);
      StepKeepsLeftOutNewer(states[n - 1], states[n], actions[n - 1]);
    }
  }

  /** If every compaction closes its next-level inputs, every run is safe, so all the run
      theorems apply. */
  lemma ClosedRunsAreSafe(states: seq<State>, actions: seq<Action>)
    requires ClosedRun(states, actions)
    ensures SafeRun(states, actions)
  {
    hide Inv, NextLevelClosed, ClearOfRunning, LeftOutIsNewer, NoResurrection;
    forall i | 0 <= i < |actions| ensures Safe(states[i], actions[i]) {
      ClosedRunLeftOut(states, actions, i);
      RunKeepsInv(states, actions, i);
      LevelCount(states[i]);
      if actions[i].DoFinish? {
        FinishNeedsRunning(states[i], states[i + 1], actions[i]);
        LeftOutNewerIsSafe(states[i]);
      }
    }
  }

  lemma FinishNeedsRunning(s: State, s': State, a: Action)
    requires Step(s, s', a) && a.DoFinish?
    ensures s.running.Some?
  {
  }

  // ----- a flush beside a running compaction -----

  lemma FlushedStays(s: State, s': State, level: nat, f: File)
    requires Inv(s) && s.running.Some? && Flush(s, s', level, [f])
    ensures ValidLevels(s'.levels) && Added(s.levels, level, f, s'.levels) && f.number == s.nextFile && f.Valid()
  {
    hide RunningInv, StrictlySorted, UniqueVersions, NewerAbove, EntriesFrom, ApplyEdit, ClearDownTo, AsSet, EntriesOf,
         ManifestInv, NumbersApart;
    TableFile(f, s.imm.value, s.lastSequence);
    FlushFile(s.levels, s.manifest, s.nextFile, level, f);
  }

  lemma InstalledBeside(s: State, s': State, s'': State, level: nat, f: File)
    requires Inv(s) && s.running.Some? && Flush(s, s', level, [f]) && FinishCompaction(s', s'')
    requires level == s.running.value.level + 1
    ensures |s''.levels| == NUM_LEVELS && level < NUM_LEVELS
    ensures f in s''.levels[level] && forall o :: o in s.running.value.outputs ==> o in s''.levels[level] && o.number != f.number
  {
    hide StrictlySorted, UniqueVersions, NewerAbove, EntriesFrom, ApplyEdit, EntriesOf, ManifestInv, NumbersApart,
         MemInv, ValidLevels, OnlyHiddenBelow, Outside, ListSorted, ClearDownTo, FitsIn;
    LevelCount(s);
    FlushedStays(s, s', level, f);
    var r := s.running.value;
    CompactionIsMoved(s'.levels, r.level, r.upper, r.lower, r.outputs);
  }

  /** A flush between the choice of a compaction's inputs and the installation of its outputs
      leaves a valid version exactly when it stays clear of the outputs. */
  lemma FlushBesideCompactionIff(s: State, s': State, s'': State, level: nat, f: File)
    requires Inv(s) && s.running.Some? && Flush(s, s', level, [f]) && FinishCompaction(s', s'')
    ensures ValidLevels(s''.levels) <==> ClearOfRunning(s.running, level, [f])
  {
    hide VersionInv, RunningInv, MemInv, Flush, FinishCompaction, ValidLevel;
    if ClearOfRunning(s.running, level, [f]) {
      FlushKeepsInv(s, s', level, [f]);
      FinishKeepsInv(s', s'');
      InvLevels(s'');
    } else {
      InstalledBeside(s, s', s'', level, f);
      if ValidLevels(s''.levels) {
        LevelShape(s''.levels, level);
        NotApartNotValid(level, s''.levels[level], f, s.running.value.outputs);
      }
    }
  }

  lemma NotApartNotValid(level: nat, files: seq<File>, f: File, outputs: seq<File>)
    requires level > 0 && f in files && forall o :: o in outputs ==> o in files && o.number != f.number
    requires ValidLevel(level, files)
    ensures forall o :: o in outputs ==> Apart(f, o)
  {
    hide UniqueVersions;
    LevelIsApart(level, files);
  }
}
