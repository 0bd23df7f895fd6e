/** What each step does to the memtables, to the files, and to the entries that a compaction
    writes. */
module LsmSteps {
  import opened DbFormat
  import opened Files
  import opened Version
  import opened VersionBuilder
  import opened Compaction
  import opened CompactionInputs
  import opened LevelMoves
  import opened Edits
  import opened Picked
  import opened Lsm
  import opened LsmInvariant

  /** A flush adds its file to its level, a move takes its file one level down, an installed
      compaction puts its outputs in the place of its inputs, and nothing else touches a file. */
  lemma FilesAfterStep(s: State, s': State, a: Action, l: nat, f: File)
    requires Inv(s) && Step(s, s', a) && l < NUM_LEVELS
    ensures f in s'.levels[l] <==>
              match a
              case DoFlush(level, files) => f in s.levels[l] || (l == level && f in files)
              case DoMove(level, moved) => if f == moved then l == level + 1 else f in s.levels[l]
              case DoFinish =>
                var r := s.running.value;
                || (l == r.level + 1 && f in r.outputs)
                || (f in s.levels[l] && !(l == r.level && f in r.upper) && !(l == r.level + 1 && f in r.lower))
              case _ => f in s.levels[l]
  {
    hide ApplyEdit, ValidLevel, ManifestInv, MemInv, ListSorted, GoodInputs, NewerAbove, GoodOutputs, Outside, FitsIn, ClearDownTo, InsertBatch;
    match a
    case DoFlush(level, files) =>
      if s.imm.value == [] {
        FlushNothing(s.levels, s.manifest, s.nextFile, level);
      } else {
        assert files == [files[0]];
        FlushIsAdded(s.levels, level, files[0]);
      }
    case DoMove(level, moved) =>
      FileMoves(s.levels, level, moved, l, f);
    case DoFinish =>
      var r := s.running.value;
      RunningOutputs(s);
      CompactionIsMoved(s.levels, r.level, r.upper, r.lower, r.outputs);
    case _ =>
  }

  lemma InOneLevel(levels: Levels, level: nat, f: File, l: nat)
    requires NumbersApart(levels) && level < |levels| && f in levels[level] && l < |levels|
    ensures f in levels[l] ==> l == level
  {
  }

  lemma FileMoves(levels: Levels, level: nat, moved: File, l: nat, f: File)
    requires ValidLevels(levels) && NumbersApart(levels) && level + 1 < NUM_LEVELS && l < NUM_LEVELS && GoodInputs(levels, level, [moved], [])
    ensures var levels' := ApplyEdit(levels, CompactionEdit(level, [moved], [], [moved]));
            |levels'| == NUM_LEVELS && (f in levels'[l] <==> if f == moved then l == level + 1 else f in levels[l])
  {
    hide ApplyEdit, ValidLevel, ListSorted, NewerAbove, CompactionEdit;
    GoodInputsAreFiles(levels, level, [moved], []);
    hide GoodInputs;
    assert moved in [moved];
    MoveNumbersUnused(levels, level, moved);
    InOneLevel(levels, level, moved, l);
    hide NumbersApart;
    CompactionIsMoved(levels, level, [moved], [], [moved]);
    assert f in [moved] <==> f == moved;
    hide ValidLevels;
    assert l != level && l != level + 1 ==> ApplyEdit(levels, CompactionEdit(level, [moved], [], [moved]))[l] == levels[l];
  }

  lemma RunningOutputs(s: State)
    requires Inv(s) && s.running.Some?
    ensures DistinctNumbers(s.running.value.outputs)
  {
    hide VersionInv, MemInv;
  }

  /** A full memtable waits until one table of exactly its entries has been written. */
  lemma MemtablesAfterStep(s: State, s': State, a: Action)
    requires Step(s, s', a)
    ensures match a
            case DoWrite(batch) => s'.imm == s.imm && s'.lastSequence == s.lastSequence + |batch|
            case DoSwitch => s.imm == None && s'.imm == Some(s.mem) && s'.mem == []
            case DoFlush(_, files) =>
              && s.imm.Some? && s'.imm == None && s'.mem == s.mem && |files| == (if s.imm.value == [] then 0 else 1)
              && forall f :: f in files ==> f.entries == s.imm.value && f.number == s.nextFile < s'.nextFile
            case _ => s'.mem == s.mem && s'.imm == s.imm && s'.lastSequence == s.lastSequence
    ensures !a.DoSnapshot? && !a.DoRelease? ==> s'.snapshots == s.snapshots
  {
    hide ApplyEdit, GoodInputs, GoodOutputs, InsertBatch;
  }

  /** What a compaction that starts will write: of its inputs, every entry that the oldest
      snapshot, or the newest read if there is none, or a later one may need, and no other.  An
      entry is not needed if a newer one of its key is no newer than that, nor is a marker if no
      file more than one level down has its key in its range. */
  lemma CompactionWrites(s: State, s': State, r: Running)
    requires Inv(s) && |s.levels| == NUM_LEVELS && BeginCompaction(s, s', r)
    ensures forall n :: n in s.snapshots ==> r.smallestSnapshot <= n
    ensures if s.snapshots == [] then r.smallestSnapshot == s.lastSequence else r.smallestSnapshot in s.snapshots
    ensures forall e :: e in EntriesOf(r.outputs) ==> e in EntriesOf(r.upper + r.lower)
    ensures forall e :: e in EntriesOf(r.upper + r.lower) ==>
              (e in EntriesOf(r.outputs) <==>
               && (forall d :: d in EntriesOf(r.upper + r.lower) && d.key.user == e.key.user && d.key.seqno > e.key.seqno ==>
                     d.key.seqno > r.smallestSnapshot)
               && (e.key.kind.Deletion? && e.key.seqno <= r.smallestSnapshot ==>
                     exists l, f :: r.level + 2 <= l < NUM_LEVELS && f in s.levels[l] && f.smallest.user <= e.key.user <= f.largest.user))
  {
    hide VersionInv, RunningInv, MemInv, GoodInputs, EntriesOf;
    EntriesOfConcat(r.upper, r.lower);
    var inputs := EntriesOf(r.upper + r.lower);
    forall e | e in inputs
      ensures e in EntriesOf(r.outputs) <==>
               && (forall d :: d in inputs && d.key.user == e.key.user && d.key.seqno > e.key.seqno ==> d.key.seqno > r.smallestSnapshot)
               && (e.key.kind.Deletion? && e.key.seqno <= r.smallestSnapshot ==>
                     exists l, f :: r.level + 2 <= l < NUM_LEVELS && f in s.levels[l] && f.smallest.user <= e.key.user <= f.largest.user)
    {
      NeededEntry(s.levels, r.level, inputs, r.smallestSnapshot, e);
    }
  }

  lemma NeededEntry(levels: Levels, level: nat, inputs: set<Entry>, snapshot: nat, e: Entry)
    ensures !Dropped(levels, level, inputs, e, snapshot) <==>
              && (forall d :: d in inputs && d.key.user == e.key.user && d.key.seqno > e.key.seqno ==> d.key.seqno > snapshot)
              && (e.key.kind.Deletion? && e.key.seqno <= snapshot ==>
                    exists l, f :: level + 2 <= l < |levels| && f in levels[l] && f.smallest.user <= e.key.user <= f.largest.user)
  {
    CoveredBelow(levels, level, e.key.user);
  }
}
