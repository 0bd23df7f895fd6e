/** What well-chosen compaction inputs mean for the rest of the version. */
module Picked {
  import opened DbFormat
  import opened Files
  import opened Version
  import opened Compaction
  import opened CompactionInputs
  import opened LevelMoves
  import opened DropRules

  ghost function InputEntries(upper: seq<File>, lower: seq<File>): set<Entry> {
    EntriesOf(upper) + EntriesOf(lower)
  }

  // All entries of the version that are not in the input files.
  ghost function Outside(levels: Levels, level: nat, upper: seq<File>, lower: seq<File>): set<Entry>
    requires |levels| == NUM_LEVELS && level + 1 < NUM_LEVELS
  {
    (set l, e | 0 <= l < NUM_LEVELS && l != level && l != level + 1 && e in EntriesOf(levels[l]) :: e)
    + EntriesOf(Without(levels[level], upper)) + EntriesOf(Without(levels[level + 1], lower))
  }

  lemma SplitByFiles(files: seq<File>, chosen: seq<File>)
    requires forall f :: f in chosen ==> f in files
    ensures EntriesOf(files) == EntriesOf(Without(files, chosen)) + EntriesOf(chosen)
  {
    forall e ensures e in EntriesOf(files) <==> e in EntriesOf(Without(files, chosen)) || e in EntriesOf(chosen) {
      if e in EntriesOf(files) {
        var f :| f in files && e in f.entries;
        assert f in chosen || f in Without(files, chosen);
      }
    }
  }

  lemma SplitVersion(levels: Levels, level: nat, upper: seq<File>, lower: seq<File>)
    requires |levels| == NUM_LEVELS && level + 1 < NUM_LEVELS
    requires forall f :: f in upper ==> f in levels[level]
    requires forall f :: f in lower ==> f in levels[level + 1]
    ensures EntriesFrom(levels, 0) == Outside(levels, level, upper, lower) + InputEntries(upper, lower)
  {
    hide EntriesOf;
    SplitByFiles(levels[level], upper);
    SplitByFiles(levels[level + 1], lower);
    forall e ensures e in EntriesFrom(levels, 0) <==> e in Outside(levels, level, upper, lower) + InputEntries(upper, lower) {
      InEntriesFrom(levels, 0, e);
    }
  }

  /** A push-down replaces the input entries by the output entries and leaves the rest alone. */
  lemma MovedEntries(levels: Levels, level: nat, upper: seq<File>, lower: seq<File>, outputs: seq<File>, levels': Levels)
    requires |levels| == NUM_LEVELS && level + 1 < NUM_LEVELS
    requires Moved(levels, level, upper, lower, outputs, levels')
    ensures EntriesFrom(levels', 0) == Outside(levels, level, upper, lower) + EntriesOf(outputs)
  {
    hide EntriesOf, ListSorted;
    EntriesOfSubset(levels'[level], Without(levels[level], upper));
    EntriesOfSubset(Without(levels[level], upper), levels'[level]);
    var mixed := Without(levels[level + 1], lower) + outputs;
    EntriesOfConcat(Without(levels[level + 1], lower), outputs);
    EntriesOfSubset(levels'[level + 1], mixed);
    EntriesOfSubset(mixed, levels'[level + 1]);
    forall e ensures e in EntriesFrom(levels', 0) <==> e in Outside(levels, level, upper, lower) + EntriesOf(outputs) {
      InEntriesFrom(levels', 0, e);
    }
  }

  // ----- ranges -----

  lemma UpperInRange(upper: seq<File>, low: UserKey, high: UserKey, e: Entry)
    requires ValidFiles(upper) && UserRange(upper, low, high) && e in EntriesOf(upper)
    ensures low <= e.key.user <= high
  {
    var f :| f in upper && e in f.entries;
    EntryBounds(f, e);
    var s, l :| IsSmallest(upper, s) && IsLargest(upper, l) && low == s.user && high == l.user;
    assert s.AtMost(f.smallest) && f.largest.AtMost(l);
  }

  // A file of the next level outside the range lies entirely before or after all inputs.
  lemma LeftOutAside(files: seq<File>, low: UserKey, high: UserKey, g: File, upperEntries: set<Entry>)
    requires ValidFiles(files) && SortedDisjoint(files)
    requires g in files && g !in Overlapping(files, Some(low), Some(high))
    requires forall e :: e in upperEntries ==> low <= e.key.user <= high
    ensures (forall e :: e in upperEntries + EntriesOf(Overlapping(files, Some(low), Some(high))) ==> g.largest.Less(e.key)) ||
            (forall e :: e in upperEntries + EntriesOf(Overlapping(files, Some(low), Some(high))) ==> e.key.Less(g.smallest))
  {
    hide ValidFiles, SortedDisjoint, StrictlySorted, Overlapping;
    var lower := Overlapping(files, Some(low), Some(high));
    LeftOutRange(files, low, high, g);
    forall e | e in EntriesOf(lower)
      ensures g.largest.user < low ==> g.largest.Less(e.key)
      ensures g.smallest.user > high ==> e.key.Less(g.smallest)
    {
      var h :| h in lower && e in h.entries;
      TakenAside(files, low, high, g, h, e);
    }
  }

  lemma LeftOutRange(files: seq<File>, low: UserKey, high: UserKey, g: File)
    requires ValidFiles(files) && g in files && g !in Overlapping(files, Some(low), Some(high))
    ensures g.largest.user < low || g.smallest.user > high
    ensures g.smallest.user <= g.largest.user
  {
    FileRange(g);
  }

  lemma TakenAside(files: seq<File>, low: UserKey, high: UserKey, g: File, h: File, e: Entry)
    requires ValidFiles(files) && SortedDisjoint(files) && g in files
    requires h in Overlapping(files, Some(low), Some(high)) && e in h.entries
    ensures g.largest.user < low ==> g.largest.Less(e.key)
    ensures g.smallest.user > high ==> e.key.Less(g.smallest)
  {
    hide StrictlySorted;
    FileRange(g);
    FileRange(h);
    EntryBounds(h, e);
    var i :| 0 <= i < |files| && files[i] == g;
    var j :| 0 <= j < |files| && files[j] == h;
    assert j < i ==> Precedes(h, g);
    assert i < j ==> Precedes(g, h);
  }

  lemma OutputsFit(levels: Levels, level: nat, upper: seq<File>, lower: seq<File>, outputs: seq<File>)
    requires ValidLevels(levels) && level + 1 < NUM_LEVELS
    requires GoodInputs(levels, level, upper, lower)
    requires ValidFiles(outputs) && EntriesOf(outputs) <= InputEntries(upper, lower)
    requires forall g, o :: g in levels[level + 1] && o in outputs ==> g.number != o.number
    ensures FitsIn(Without(levels[level + 1], lower), outputs)
  {
    hide ValidLevel, UserRange, NewerAbove, VersionClosed, StrictlySorted, SortedDisjoint;
    var files := levels[level + 1];
    LevelShape(levels, level);
    LevelShape(levels, level + 1);
    var low, high :| UserRange(upper, low, high) && lower == Overlapping(files, Some(low), Some(high));
    assert ValidFiles(upper);
    forall e | e in EntriesOf(upper) ensures low <= e.key.user <= high {
      UpperInRange(upper, low, high, e);
    }
    forall g, o | g in Without(files, lower) && o in outputs ensures Apart(g, o) && g.number != o.number {
      LeftOutAside(files, low, high, g, EntriesOf(upper));
      OutputEnds(outputs, o);
    }
  }

  lemma OutputEnds(outputs: seq<File>, o: File)
    requires ValidFiles(outputs) && o in outputs
    ensures exists e :: e in EntriesOf(outputs) && e.key == o.smallest
    ensures exists e :: e in EntriesOf(outputs) && e.key == o.largest
  {
    assert o.Valid();
    assert o.entries[0] in o.entries && o.entries[|o.entries| - 1] in o.entries;
    assert o.entries[0] in EntriesOf(outputs) && o.entries[|o.entries| - 1] in EntriesOf(outputs);
  }

  // ----- versions -----

  lemma DeeperIsNotBase(levels: Levels, level: nat, l: nat, d: Entry)
    requires ValidLevels(levels) && level + 2 <= l < NUM_LEVELS && d in EntriesOf(levels[l])
    ensures !BaseLevel(levels, level, d.key.user)
  {
    hide NewerAbove, UniqueVersions, StrictlySorted;
    LevelShape(levels, l);
    var f :| f in levels[l] && d in f.entries;
    EntryBounds(f, d);
    assert CoversUser(f, d.key.user);
  }

  lemma DisjointFiles(level: nat, files: seq<File>, chosen: seq<File>)
    requires level > 0 && ValidLevel(level, files) && forall f :: f in chosen ==> f in files
    ensures EntriesOf(Without(files, chosen)) !! EntriesOf(chosen)
  {
    hide UniqueVersions, ListSorted, DistinctNumbers, StrictlySorted;
    LevelIsApart(level, files);
    forall e | e in EntriesOf(Without(files, chosen)) && e in EntriesOf(chosen) ensures false {
      var g :| g in Without(files, chosen) && e in g.entries;
      var f :| f in chosen && e in f.entries;
      assert Apart(f, g);
      EntryBounds(f, e);
      EntryBounds(g, e);
    }
  }

  /** Everything outside the inputs is newer than they are, sits in a left-out file of the next
      level, or is seen by the base-level check. */
  lemma OutsideOfInputs(levels: Levels, level: nat, upper: seq<File>, lower: seq<File>, d: Entry, e: Entry)
    requires ValidLevels(levels) && level + 1 < NUM_LEVELS && GoodInputs(levels, level, upper, lower)
    requires d in Outside(levels, level, upper, lower) && e in InputEntries(upper, lower) && d.key.user == e.key.user
    ensures || d.key.seqno > e.key.seqno
            || (d.key.seqno < e.key.seqno && !BaseLevel(levels, level, e.key.user))
            || (d in EntriesOf(Without(levels[level + 1], lower)) && d != e)
  {
    hide ValidLevel, UniqueVersions, UserRange, BaseLevel, EntriesOf, VersionClosed;
    LevelShape(levels, level);
    LevelShape(levels, level + 1);
    EntriesOfSubset(upper, levels[level]);
    EntriesOfSubset(lower, levels[level + 1]);
    EntriesOfSubset(Without(levels[level + 1], lower), levels[level + 1]);
    EntriesOfSubset(Without(levels[level], upper), levels[level]);
    if d in EntriesOf(Without(levels[level + 1], lower)) {
      DisjointFiles(level + 1, levels[level + 1], lower);
    } else if d in EntriesOf(Without(levels[level], upper)) {
      LeftOutNewer(level, levels[level], upper);
    } else {
      var l :| 0 <= l < NUM_LEVELS && l != level && l != level + 1 && d in EntriesOf(levels[l]);
      if l > level {
        DeeperIsNotBase(levels, level, l, d);
      }
    }
  }

  lemma PickedOnlyHidden(levels: Levels, level: nat, upper: seq<File>, lower: seq<File>)
    requires ValidLevels(levels) && level + 1 < NUM_LEVELS && GoodInputs(levels, level, upper, lower)
    ensures UniqueVersions(EntriesFrom(levels, 0))
    ensures OnlyHiddenBelow(EntriesFrom(levels, 0), InputEntries(upper, lower), EntriesOf(Without(levels[level + 1], lower)), levels, level)
  {
    hide ValidLevel, NewerAbove, GoodInputs, UniqueVersions, BaseLevel, EntriesOf, EntriesFrom, Outside, InputEntries;
    VersionsUnique(levels, 0);
    GoodInputsAreFiles(levels, level, upper, lower);
    SplitVersion(levels, level, upper, lower);
    var all, inputs, leftOut := EntriesFrom(levels, 0), InputEntries(upper, lower), EntriesOf(Without(levels[level + 1], lower));
    LeftOutIsOutside(levels, level, upper, lower);
    forall d | d in inputs && d in leftOut ensures false {
      OutsideOfInputs(levels, level, upper, lower, d, d);
    }
    forall d, e | d in all && d !in inputs && d !in leftOut && e in inputs && d.key.user == e.key.user
      ensures d.key.seqno > e.key.seqno || !BaseLevel(levels, level, e.key.user)
    {
      OutsideOfInputs(levels, level, upper, lower, d, e);
    }
  }

  lemma LeftOutIsOutside(levels: Levels, level: nat, upper: seq<File>, lower: seq<File>)
    requires |levels| == NUM_LEVELS && level + 1 < NUM_LEVELS
    ensures EntriesOf(Without(levels[level + 1], lower)) <= Outside(levels, level, upper, lower)
  {
  }

  lemma GoodInputsAreFiles(levels: Levels, level: nat, upper: seq<File>, lower: seq<File>)
    requires |levels| == NUM_LEVELS && level + 1 < NUM_LEVELS && GoodInputs(levels, level, upper, lower)
    ensures forall f :: f in upper ==> f in levels[level]
    ensures forall f :: f in lower ==> f in levels[level + 1]
  {
  }

  /** The reads that a compaction of these inputs keeps: all of them, exactly when no dropped
      deletion marker was all that hid a value in a left-out file of the next level. */
  lemma CompactionPreservesReadsIff(levels: Levels, level: nat, upper: seq<File>, lower: seq<File>, snapshot: nat)
    requires ValidLevels(levels) && level + 1 < NUM_LEVELS && GoodInputs(levels, level, upper, lower)
    ensures var all, inputs, leftOut := EntriesFrom(levels, 0), InputEntries(upper, lower), EntriesOf(Without(levels[level + 1], lower));
            SameReads(all, AfterDrops(all, inputs, levels, level, snapshot), snapshot) <==>
            NothingResurfaces(all, inputs, leftOut, levels, level, snapshot)
  {
    hide ValidLevel, NewerAbove, GoodInputs, UniqueVersions, SameReads, NothingResurfaces, OnlyHiddenBelow;
    PickedOnlyHidden(levels, level, upper, lower);
    DropsPreserveReadsIff(EntriesFrom(levels, 0), InputEntries(upper, lower), EntriesOf(Without(levels[level + 1], lower)), levels, level, snapshot);
  }

  // The inputs of the next level do not stop in the middle of a user key either.
  ghost predicate NextLevelClosed(levels: Levels, level: nat, lower: seq<File>)
    requires level + 1 < |levels|
  {
    lower != [] ==> VersionClosed(level + 1, levels[level + 1], lower)
  }

  lemma NextLevelClosedNewer(levels: Levels, level: nat, upper: seq<File>, lower: seq<File>)
    requires ValidLevels(levels) && level + 1 < NUM_LEVELS && GoodInputs(levels, level, upper, lower)
    requires NextLevelClosed(levels, level, lower)
    ensures NewerAbove(EntriesOf(Without(levels[level + 1], lower)), InputEntries(upper, lower))
  {
    hide ValidLevel, UniqueVersions, VersionClosed, UserRange, EntriesOf;
    var leftOut := Without(levels[level + 1], lower);
    LevelShape(levels, level + 1);
    if lower != [] {
      LeftOutNewer(level + 1, levels[level + 1], lower);
    } else {
      NoEntries();
    }
    forall a, b | a in EntriesOf(leftOut) && b in EntriesOf(upper) ensures a.key.user != b.key.user {
      NextLevelMissesUpper(levels, level, upper, lower, a, b);
    }
    NewerOnUnions(EntriesOf(upper), EntriesOf(lower), EntriesOf(leftOut));
  }

  lemma NoEntries()
    ensures EntriesOf([]) == {}
  {
  }

  /** Running the boundary search on the next level's inputs too would rule the failure out. */
  lemma BoundaryClosureSuffices(levels: Levels, level: nat, upper: seq<File>, lower: seq<File>, snapshot: nat)
    requires ValidLevels(levels) && level + 1 < NUM_LEVELS && GoodInputs(levels, level, upper, lower)
    requires NextLevelClosed(levels, level, lower)
    ensures var all := EntriesFrom(levels, 0);
            SameReads(all, AfterDrops(all, InputEntries(upper, lower), levels, level, snapshot), snapshot)
  {
    hide ValidLevel, UniqueVersions, SameReads, NothingResurfaces, NextLevelClosed, GoodInputs, EntriesFrom, NewerAbove;
    var leftOut := EntriesOf(Without(levels[level + 1], lower));
    NextLevelClosedNewer(levels, level, upper, lower);
    NewerLeftOutSuffices(EntriesFrom(levels, 0), InputEntries(upper, lower), leftOut, levels, level, snapshot);
    CompactionPreservesReadsIff(levels, level, upper, lower, snapshot);
  }

  lemma NextLevelMissesUpper(levels: Levels, level: nat, upper: seq<File>, lower: seq<File>, a: Entry, b: Entry)
    requires ValidLevels(levels) && level + 1 < NUM_LEVELS && GoodInputs(levels, level, upper, lower)
    requires a in EntriesOf(Without(levels[level + 1], lower)) && b in EntriesOf(upper)
    ensures a.key.user != b.key.user
  {
    hide UniqueVersions, VersionClosed, UserRange, NewerAbove, StrictlySorted, SortedDisjoint;
    LevelShape(levels, level);
    LevelShape(levels, level + 1);
    var low, high :| UserRange(upper, low, high) && lower == Overlapping(levels[level + 1], Some(low), Some(high));
    UpperInRange(upper, low, high, b);
    var g :| g in Without(levels[level + 1], lower) && a in g.entries;
    EntryBounds(g, a);
  }
}
