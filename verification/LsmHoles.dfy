/** Both holes are real: runs from the empty store, with every flush at the level the code chooses,
    that bring a deleted value back and that leave two overlapping files in a level. */
module LsmHoles {
  import opened DbFormat
  import opened Files
  import opened Version
  import opened VersionBuilder
  import opened Compaction
  import opened CompactionInputs
  import opened LevelMoves
  import opened DropRules
  import opened Edits
  import opened Picked
  import opened Lsm
  import opened LsmInvariant
  import opened LsmTheorems
  import opened LsmLimits

  // ----- states that a run reaches -----

  // A flush goes down as far as it can.
  ghost predicate AsDeepAsClear(s: State, a: Action) {
    a.DoFlush? && a.files != [] && a.flushLevel < MAX_MEM_COMPACT_LEVEL && |s.levels| == NUM_LEVELS ==>
      !ClearDownTo(s.levels, a.flushLevel + 1, a.files[0].smallest.user, a.files[0].largest.user)
  }

  ghost predicate RunFromEmpty(states: seq<State>, actions: seq<Action>) {
    && ClearRun(states, actions) && Init(states[0])
    && forall i :: 0 <= i < |actions| ==> AsDeepAsClear(states[i], actions[i])
  }

  ghost predicate Reached(s: State) {
    exists states, actions :: RunFromEmpty(states, actions) && states[|actions|] == s
  }

  lemma ReachedInv(s: State)
    requires Reached(s)
    ensures Inv(s) && |s.levels| == NUM_LEVELS
  {
    hide Inv, ClearOfRunning, Step, AsDeepAsClear;
    var states, actions :| RunFromEmpty(states, actions) && states[|actions|] == s;
    RunKeepsInv(states, actions, |actions|);
    LevelCount(s);
  }

  lemma EmptyReached(s: State)
    requires Init(s)
    ensures Reached(s)
  {
    hide Inv, Init;
    InitInv(s);
    var actions: seq<Action> := [];
    assert RunFromEmpty([s], actions) && [s][|actions|] == s;
  }

  lemma Stepped(s: State, s': State, a: Action)
    requires Reached(s) && Step(s, s', a) && Clear(s, a) && AsDeepAsClear(s, a)
    ensures Reached(s')
  {
    hide Inv, Clear, Step, AsDeepAsClear, Init;
    var states, actions :| RunFromEmpty(states, actions) && states[|actions|] == s;
    var states', actions' := states + [s'], actions + [a];
    assert states'[0] == states[0];
    forall i | 0 <= i < |actions'|
      ensures Step(states'[i], states'[i + 1], actions'[i]) && Clear(states'[i], actions'[i]) && AsDeepAsClear(states'[i], actions'[i])
    {
      if i < |actions| {
        assert states'[i] == states[i] && states'[i + 1] == states[i + 1] && actions'[i] == actions[i];
      }
    }
    assert RunFromEmpty(states', actions') && states'[|actions'|] == s';
  }

  // ----- a few steps at once -----

  function Table(number: nat, entries: seq<Entry>): File
    requires entries != []
  {
    File(number, 1, entries[0].key, entries[|entries| - 1].key, entries)
  }

  function At(user: UserKey, sequence: nat, kind: Kind): Entry {
    Entry(IKey(user, sequence, kind), [])
  }

  // A batch is written and its memtable becomes the immutable one.
  lemma Switched(s: State, batch: seq<Op>, entries: seq<Entry>) returns (s': State)
    requires Reached(s) && s.mem == [] && s.imm == None && s.lastSequence + |batch| < MAX_SEQUENCE
    requires InsertBatch([], batch, s.lastSequence + 1) == entries
    ensures Reached(s') && s' == s.(imm := Some(entries), lastSequence := s.lastSequence + |batch|)
  {
    hide Reached, InsertBatch, Inv;
    ReachedInv(s);
    var w := s.(mem := entries, lastSequence := s.lastSequence + |batch|);
    Stepped(s, w, DoWrite(batch));
    s' := w.(imm := Some(w.mem), mem := []);
    Stepped(w, s', DoSwitch);
  }

  ghost predicate Flushable(s: State, level: nat, f: File) {
    && f.entries != [] && s.imm == Some(f.entries) && f == Table(s.nextFile, f.entries)
    && |s.levels| == NUM_LEVELS && 0 < level <= MAX_MEM_COMPACT_LEVEL
    && ClearDownTo(s.levels, level, f.smallest.user, f.largest.user)
  }

  // The level a file has been added to.
  ghost predicate LevelPlus(old': seq<File>, f: File, files: seq<File>) {
    ListSorted(files) && forall g :: g in files <==> g in old' || g == f
  }

  lemma FlushStep(s: State, level: nat, f: File, files: seq<File>) returns (s': State)
    requires Inv(s) && Flushable(s, level, f) && LevelPlus(s.levels[level], f, files)
    ensures Step(s, s', DoFlush(level, [f]))
    ensures s' == s.(imm := None, levels := s.levels[level := files], manifest := s'.manifest, nextFile := s.nextFile + 1)
  {
    hide RunningInv, UniqueVersions, NewerAbove, EntriesFrom, ApplyEdit, ClearDownTo, AsSet, ManifestInv, NumbersApart,
         StrictlySorted, ValidLevels, ListSorted;
    var edit := FlushEdit(level, [f]);
    s' := s.(imm := None, levels := ApplyEdit(s.levels, edit), manifest := s.manifest + [edit], nextFile := s.nextFile + 1);
    TableFile(f, s.imm.value, s.lastSequence);
    FlushFile(s.levels, s.manifest, s.nextFile, level, f);
    SortedListUnique(s'.levels[level], files);
    assert s'.levels == s.levels[level := files];
  }

  // The whole way of a batch into a table.
  lemma Flushed(s: State, batch: seq<Op>, level: nat, f: File, files: seq<File>) returns (s': State)
    requires Reached(s) && s.mem == [] && s.imm == None && s.running == None && s.lastSequence + |batch| < MAX_SEQUENCE
    requires InsertBatch([], batch, s.lastSequence + 1) == f.entries
    requires Flushable(s.(imm := Some(f.entries)), level, f) && LevelPlus(s.levels[level], f, files)
    requires AsDeepAsClear(s, DoFlush(level, [f]))
    ensures Reached(s')
    ensures s' == s.(levels := s.levels[level := files], manifest := s'.manifest, nextFile := s.nextFile + 1,
                     lastSequence := s.lastSequence + |batch|)
  {
    hide Reached, InsertBatch, Inv, ClearDownTo, Step, LevelPlus;
    var w := Switched(s, batch, f.entries);
    ReachedInv(w);
    s' := FlushStep(w, level, f, files);
    Stepped(w, s', DoFlush(level, [f]));
  }

  // The inputs of a compaction have left their levels and its outputs have come in.
  ghost predicate LevelsAfter(levels: Levels, r: Running, up: seq<File>, down: seq<File>)
    requires |levels| == NUM_LEVELS && r.level + 1 < NUM_LEVELS
  {
    && ListSorted(up) && (forall f :: f in up <==> f in levels[r.level] && f !in r.upper)
    && ListSorted(down) && (forall f :: f in down <==> (f in levels[r.level + 1] && f !in r.lower) || f in r.outputs)
  }

  lemma FinishStep(s: State, up: seq<File>, down: seq<File>) returns (s': State)
    requires Inv(s) && |s.levels| == NUM_LEVELS && s.running.Some? && s.running.value.level + 1 < NUM_LEVELS
    requires LevelsAfter(s.levels, s.running.value, up, down)
    ensures Step(s, s', DoFinish)
    ensures var l := s.running.value.level;
            s' == s.(levels := s.levels[l := up][l + 1 := down], manifest := s'.manifest, running := None)
  {
    hide UniqueVersions, NewerAbove, EntriesFrom, ApplyEdit, EntriesOf, ManifestInv, NumbersApart, MemInv, ValidLevels,
         OnlyHiddenBelow, Outside, ListSorted, FitsIn, StrictlySorted;
    var r := s.running.value;
    var edit := CompactionEdit(r.level, r.upper, r.lower, r.outputs);
    s' := s.(levels := ApplyEdit(s.levels, edit), manifest := s.manifest + [edit], running := None);
    CompactionIsMoved(s.levels, r.level, r.upper, r.lower, r.outputs);
    SortedListUnique(s'.levels[r.level], up);
    SortedListUnique(s'.levels[r.level + 1], down);
    assert s'.levels == s.levels[r.level := up][r.level + 1 := down];
  }

  lemma Begun(s: State, r: Running, next: nat) returns (s': State)
    requires Reached(s) && s.running == None && |s.levels| == NUM_LEVELS && s.nextFile <= next
    requires r.level + 1 < NUM_LEVELS && GoodInputs(s.levels, r.level, r.upper, r.lower)
    requires r.inputVersion == s.levels && r.smallestSnapshot == SmallestSnapshot(s) && GoodOutputs(r, s.nextFile, next)
    ensures Reached(s') && s' == s.(running := Some(r), nextFile := next)
  {
    hide Reached, GoodInputs, GoodOutputs;
    s' := s.(running := Some(r), nextFile := next);
    Stepped(s, s', DoBegin(r));
  }

  // ----- small levels -----

  lemma OneFileIn(f: File)
    ensures ListSorted([f]) && LevelPlus([], f, [f])
  {
    assert forall g :: g in [f] <==> g == f;
  }

  lemma TwoFilesIn(f: File, g: File)
    requires FileLess(f, g)
    ensures ListSorted([f, g]) && LevelPlus([f], g, [f, g])
  {
    assert forall h :: h in [f, g] <==> h == f || h == g;
  }

  lemma OnePut(user: UserKey, n: nat)
    ensures InsertBatch([], [Put(user, [])], n) == [At(user, n, Value)]
  {
    assert [Put(user, [])][..0] == [];
  }

  lemma PutAndDelete(n: nat)
    ensures InsertBatch([], [Put(1, []), Delete(5)], n) == [At(1, n, Value), At(5, n + 1, Deletion)]
  {
    OnePut(1, n);
    assert [Put(1, []), Delete(5)][..1] == [Put(1, [])];
    assert InsertEntry([], At(5, n + 1, Deletion)) == [At(5, n + 1, Deletion)];
  }

  // A version with files in levels 1 and 2 only.
  function OneAndTwo(one: seq<File>, two: seq<File>): Levels {
    [[], one, two, [], [], [], []]
  }

  lemma OneAndTwoClear(one: seq<File>, two: seq<File>, low: UserKey, high: UserKey)
    ensures (forall f :: f in one ==> !Overlaps(f, Some(low), Some(high))) ==> ClearDownTo(OneAndTwo(one, two), 1, low, high)
    ensures (forall f :: f in one + two ==> !Overlaps(f, Some(low), Some(high))) ==> ClearDownTo(OneAndTwo(one, two), 2, low, high)
    ensures (exists f :: f in two && Overlaps(f, Some(low), Some(high))) ==> !ClearDownTo(OneAndTwo(one, two), 2, low, high)
  {
    var levels := OneAndTwo(one, two);
    assert levels[0] == [] && levels[1] == one && levels[2] == two;
    hide Overlaps, OneAndTwo;
    assert forall f :: f in two ==> f in levels[2];
  }

  lemma Empty() returns (s: State)
    ensures Reached(s) && s == State([], None, OneAndTwo([], []), [], 0, [], 2, None)
  {
    s := State([], None, seq(NUM_LEVELS, _ => []), [], 0, [], 2, None);
    EmptyReached(s);
    assert s.levels == OneAndTwo([], []);
  }

  // ----- a deleted value comes back -----

  // Key 5 is written and flushed; a snapshot keeps the value; then the key is deleted.
  lemma KeptBySnapshot() returns (s: State)
    ensures Reached(s)
    ensures s == State([], None, OneAndTwo([Table(3, [At(1, 2, Value), At(5, 3, Deletion)])], [Table(2, [At(5, 1, Value)])]),
                       s.manifest, 3, [1], 4, None)
  {
    hide Reached, ClearDownTo, ListSorted;
    var value, marker := Table(2, [At(5, 1, Value)]), Table(3, [At(1, 2, Value), At(5, 3, Deletion)]);
    s := Empty();
    OnePut(5, 1);
    OneFileIn(value);
    OneAndTwoClear([], [], 5, 5);
    s := Flushed(s, [Put(5, [])], 2, value, [value]);
    assert s.levels == OneAndTwo([], [value]);
    var t := s.(snapshots := [1]);
    Stepped(s, t, DoSnapshot);
    PutAndDelete(2);
    OneFileIn(marker);
    OneAndTwoClear([], [value], 1, 5);
    assert value in [value] && Overlaps(value, Some(1), Some(5));
    s := Flushed(t, [Put(1, []), Delete(5)], 1, marker, [marker]);
    assert s.levels == OneAndTwo([marker], [value]);
  }

  // One file in level 1 can only be compacted with what it overlaps in level 2.
  lemma OneFileInputs(levels: Levels, u: File, lower: seq<File>)
    requires ValidLevels(levels) && levels[1] == [u]
    requires lower == Overlapping(levels[2], Some(u.smallest.user), Some(u.largest.user))
    ensures GoodInputs(levels, 1, [u], lower)
    ensures forall upper, lower' :: GoodInputs(levels, 1, upper, lower') ==> upper == [u] && lower' == lower
  {
    hide NewerAbove, UniqueVersions, StrictlySorted;
    LevelShape(levels, 1);
    FileRange(u);
    assert u in [u];
    assert IsSmallest([u], u.smallest) && IsLargest([u], u.largest);
    assert UserRange([u], u.smallest.user, u.largest.user);
    assert [u] == levels[1][0..1];
    assert forall g :: g in [u] ==> g == u;
    forall upper, lower' | GoodInputs(levels, 1, upper, lower') ensures upper == [u] && lower' == lower {
      assert upper == [u] by {
        assert Contiguous([u], upper);
      }
      OneFileRange(u);
    }
  }

  lemma OneFileRange(u: File)
    ensures forall low, high :: UserRange([u], low, high) ==> low == u.smallest.user && high == u.largest.user
  {
    assert forall s :: IsSmallest([u], s) ==> s == u.smallest;
    assert forall l :: IsLargest([u], l) ==> l == u.largest;
  }

  lemma OneOverlaps(f: File, low: UserKey, high: UserKey)
    requires Overlaps(f, Some(low), Some(high))
    ensures Overlapping([f], Some(low), Some(high)) == [f]
  {
    NoFilesOverlap(Some(low), Some(high));
    OverlappingStep([f], 0, Some(low), Some(high));
    assert [f][..0] == [] && [f][..1] == [f];
  }

  lemma TwoOverlap(f: File, g: File, low: UserKey, high: UserKey)
    requires Overlaps(f, Some(low), Some(high))
    ensures Overlapping([f, g], Some(low), Some(high)) == if Overlaps(g, Some(low), Some(high)) then [f, g] else [f]
  {
    hide Overlaps, Overlapping;
    OneOverlaps(f, low, high);
    OverlappingStep([f, g], 1, Some(low), Some(high));
    assert [f, g][..1] == [f] && [f, g][..2] == [f, g];
  }

  lemma EntriesOfTwo(f: File, g: File)
    ensures EntriesOf([f, g]) == AsSet(f.entries) + AsSet(g.entries)
  {
    hide AsSet;
    EntriesOfOne(f);
    EntriesOfOne(g);
    assert [f, g] == [f] + [g];
    EntriesOfConcat([f], [g]);
  }

  // The compaction splits key 5 between its two outputs: nothing may be dropped yet.
  function Splitting(levels: Levels): Running {
    var (k, d, v) := (At(1, 2, Value), At(5, 3, Deletion), At(5, 1, Value));
    Running(1, [Table(3, [k, d])], [Table(2, [v])], levels, 1, [Table(4, [k, d]), Table(5, [v])])
  }

  lemma SplittingOutputs(levels: Levels)
    ensures GoodOutputs(Splitting(levels), 4, 6)
  {
    hide BaseLevel;
    var r := Splitting(levels);
    var u, l, f, g := r.upper[0], r.lower[0], r.outputs[0], r.outputs[1];
    EntriesOfTwo(f, g);
    EntriesOfOne(u);
    EntriesOfOne(l);
    assert forall h :: h in r.outputs ==> h == f || h == g;
    assert f.Valid() && g.Valid() && Precedes(f, g);
    assert SurvivingEntries(r) == InputEntries(r.upper, r.lower);
  }

  lemma SplittingBegun(s: State) returns (t: State)
    requires Reached(s) && s.running == None && s.nextFile == 4 && s.snapshots == [1]
    requires s.levels == OneAndTwo(Splitting([]).upper, Splitting([]).lower)
    ensures Reached(t) && t == s.(running := Some(Splitting(s.levels)), nextFile := 6)
  {
    hide Reached, GoodOutputs, GoodInputs, ValidLevels, Inv;
    ReachedLevels(s);
    var r := Splitting(s.levels);
    OneOverlaps(r.lower[0], 1, 5);
    OneFileInputs(s.levels, r.upper[0], r.lower);
    SplittingOutputs(s.levels);
    t := Begun(s, r, 6);
  }

  lemma SplitBetweenFiles() returns (s: State)
    ensures Reached(s)
    ensures s == State([], None, OneAndTwo([], Splitting([]).outputs), s.manifest, 3, [], 6, None)
  {
    hide Reached, LevelsAfter, Inv, Step;
    var before := KeptBySnapshot();
    var t := SplittingBegun(before);
    ReachedInv(t);
    var r := Splitting(before.levels);
    SplittingLevels(before.levels);
    s := FinishStep(t, [], r.outputs);
    Stepped(t, s, DoFinish);
    assert s.levels == OneAndTwo([], r.outputs);
    t := s;
    s := SnapshotGone(t);
  }

  lemma SplittingLevels(levels: Levels)
    requires levels == OneAndTwo(Splitting([]).upper, Splitting([]).lower)
    ensures LevelsAfter(levels, Splitting(levels), [], Splitting([]).outputs)
  {
    hide ListSorted;
    var r := Splitting([]);
    TwoFilesIn(r.outputs[0], r.outputs[1]);
    NoFilesIn();
    assert levels[1] == r.upper && levels[2] == r.lower;
  }

  lemma SnapshotGone(s: State) returns (t: State)
    requires Reached(s) && s.snapshots == [1]
    ensures Reached(t) && t == s.(snapshots := [])
  {
    hide Reached, Inv;
    ReachedInv(s);
    t := s.(snapshots := []);
    assert [1][..0] + [1][1..] == [];
    Stepped(s, t, DoRelease(0));
  }

  lemma ReachedLevels(s: State)
    requires Reached(s)
    ensures Inv(s) && ValidLevels(s.levels)
  {
    hide Reached;
    ReachedInv(s);
    InvLevels(s);
  }

  lemma NoFilesIn()
    ensures ListSorted([])
  {
  }

  // The next compaction takes the file with the marker and leaves the one with the value.
  function Resurrecting(levels: Levels): Running {
    var (k, d, n) := (At(1, 2, Value), At(5, 3, Deletion), At(1, 4, Value));
    Running(1, [Table(6, [n])], [Table(4, [k, d])], levels, 4, [Table(7, [n])])
  }

  // The file left out.
  function OldValue(): File {
    Table(5, [At(5, 1, Value)])
  }

  lemma ResurrectingOutputs(levels: Levels)
    requires levels == OneAndTwo(Resurrecting([]).upper, [Resurrecting([]).lower[0], OldValue()])
    ensures GoodOutputs(Resurrecting(levels), 7, 8)
  {
    var r := Resurrecting(levels);
    var k, d, n := At(1, 2, Value), At(5, 3, Deletion), At(1, 4, Value);
    NothingDeeper(levels, 5);
    hide BaseLevel;
    EntriesOfOne(r.upper[0]);
    EntriesOfOne(r.lower[0]);
    EntriesOfOne(r.outputs[0]);
    assert forall h :: h in r.outputs ==> h == r.outputs[0];
    assert r.outputs[0].Valid();
    var inputs := InputEntries(r.upper, r.lower);
    assert inputs == {n, k, d};
    assert n in inputs && k in inputs && d in inputs;
    assert Hidden(inputs, k, 4) && Obsolete(levels, 1, d, 4);
    assert SurvivingEntries(r) == {n};
  }

  lemma NothingDeeper(levels: Levels, user: UserKey)
    requires |levels| == NUM_LEVELS && forall l :: 3 <= l < NUM_LEVELS ==> levels[l] == []
    ensures BaseLevel(levels, 1, user)
  {
  }

  lemma ResurrectingBegun() returns (t: State)
    ensures Reached(t) && t.mem == [] && t.imm == None && t.lastSequence == 4
    ensures t.levels == OneAndTwo(Resurrecting([]).upper, [Resurrecting([]).lower[0], OldValue()])
    ensures t.running == Some(Resurrecting(t.levels))
    ensures forall upper, lower :: GoodInputs(t.levels, 1, upper, lower) ==> upper == t.running.value.upper && lower == t.running.value.lower
  {
    hide Reached, GoodOutputs, ClearDownTo, ListSorted, GoodInputs, Inv;
    var s := SplitBetweenFiles();
    var files := s.levels[2];
    var u := Resurrecting([]).upper[0];
    OnePut(1, 4);
    OneFileIn(u);
    OneAndTwoClear([], files, 1, 1);
    assert files[0] in files && Overlaps(files[0], Some(1), Some(1));
    s := Flushed(s, [Put(1, [])], 1, u, [u]);
    assert s.levels == OneAndTwo([u], files);
    t := BeginResurrecting(s);
  }

  lemma BeginResurrecting(s: State) returns (t: State)
    requires Reached(s) && s.running == None && s.nextFile == 7 && s.snapshots == [] && s.lastSequence == 4
    requires s.levels == OneAndTwo(Resurrecting([]).upper, [Resurrecting([]).lower[0], OldValue()])
    ensures Reached(t) && t == s.(running := Some(Resurrecting(s.levels)), nextFile := 8)
    ensures forall upper, lower :: GoodInputs(s.levels, 1, upper, lower) ==> upper == t.running.value.upper && lower == t.running.value.lower
  {
    hide Reached, GoodOutputs, GoodInputs, ValidLevels, Inv;
    ReachedLevels(s);
    var r := Resurrecting(s.levels);
    TwoOverlap(r.lower[0], OldValue(), 1, 1);
    OneFileInputs(s.levels, r.upper[0], r.lower);
    ResurrectingOutputs(s.levels);
    t := Begun(s, r, 8);
  }

  lemma ResurrectingLevels(levels: Levels)
    requires levels == OneAndTwo(Resurrecting([]).upper, [Resurrecting([]).lower[0], OldValue()])
    ensures LevelsAfter(levels, Resurrecting(levels), [], [Resurrecting([]).outputs[0], OldValue()])
  {
    hide ListSorted;
    var r := Resurrecting([]);
    TwoFilesIn(r.outputs[0], OldValue());
    NoFilesIn();
    assert levels[1] == r.upper && levels[2] == [r.lower[0], OldValue()];
  }

  lemma EntriesOfFiles(s: State, one: seq<File>, two: seq<File>)
    requires s.mem == [] && s.imm == None && s.levels == OneAndTwo(one, two)
    ensures AllEntries(s) == EntriesOf(one) + EntriesOf(two)
  {
    hide EntriesOf;
    NoEntries();
    EmptySet();
    var levels := s.levels;
    assert EntriesFrom(levels, 7) == {};
    assert EntriesFrom(levels, 6) == {};
    assert EntriesFrom(levels, 5) == {};
    assert EntriesFrom(levels, 4) == {};
    assert EntriesFrom(levels, 3) == {};
    assert EntriesFrom(levels, 2) == EntriesOf(two);
    assert EntriesFrom(levels, 1) == EntriesOf(one) + EntriesOf(two);
    assert EntriesOf(levels[0]) == {};
  }

  /** A run from the empty store ends in a compaction whose only possible inputs leave out the
      file with an old value of key 5: before it is installed the key reads as deleted, and
      afterwards the old value is back. */
  lemma DroppedMarkerResurrects() returns (s: State, s': State)
    ensures Reached(s) && Step(s, s', DoFinish) && s'.lastSequence == s.lastSequence
    ensures forall upper, lower :: GoodInputs(s.levels, 1, upper, lower) ==> upper == s.running.value.upper && lower == s.running.value.lower
    ensures Read(AllEntries(s), 5, s.lastSequence) == None && Read(AllEntries(s'), 5, s.lastSequence) == Some([])
  {
    hide Reached, LevelsAfter, Inv, Step, GoodInputs, AllEntries, Read, IsNewest, Meaning, EntriesOf;
    s := ResurrectingBegun();
    ReachedInv(s);
    var r := Resurrecting(s.levels);
    ResurrectingLevels(s.levels);
    s' := FinishStep(s, [], [r.outputs[0], OldValue()]);
    Stepped(s, s', DoFinish);
    assert s'.levels == OneAndTwo([], [r.outputs[0], OldValue()]);
    ReadsBefore(s);
    ReadsAfter(s');
  }

  lemma ReadsBefore(s: State)
    requires Reached(s) && s.mem == [] && s.imm == None
    requires s.levels == OneAndTwo(Resurrecting([]).upper, [Resurrecting([]).lower[0], OldValue()])
    ensures Read(AllEntries(s), 5, 4) == None
  {
    hide Reached, EntriesOf, AllEntries, UniqueVersions, Inv, SequencesAtMost;
    var r := Resurrecting([]);
    ReachedInv(s);
    AllUnique(s);
    EntriesOfFiles(s, r.upper, [r.lower[0], OldValue()]);
    EntriesOfOne(r.upper[0]);
    EntriesOfTwo(r.lower[0], OldValue());
    assert AllEntries(s) == {At(1, 4, Value), At(1, 2, Value), At(5, 3, Deletion), At(5, 1, Value)};
    ReadOfNewest(AllEntries(s), 5, 4, At(5, 3, Deletion));
  }

  lemma ReadsAfter(s: State)
    requires Reached(s) && s.mem == [] && s.imm == None
    requires s.levels == OneAndTwo([], [Resurrecting([]).outputs[0], OldValue()])
    ensures Read(AllEntries(s), 5, 4) == Some([])
  {
    hide Reached, EntriesOf, AllEntries, UniqueVersions, Inv, SequencesAtMost;
    var o := Resurrecting([]).outputs[0];
    ReachedInv(s);
    AllUnique(s);
    EntriesOfFiles(s, [], [o, OldValue()]);
    NoEntries();
    EntriesOfTwo(o, OldValue());
    assert AllEntries(s) == {At(1, 4, Value), At(5, 1, Value)};
    ReadOfNewest(AllEntries(s), 5, 4, At(5, 1, Value));
  }

  // ----- a flush falls between the inputs of a compaction -----

  // Both files of level 1 with both files of level 2, written to one file over the gap.
  function Bridging(levels: Levels): Running {
    Running(1, [Table(4, [At(1, 3, Value)]), Table(5, [At(9, 4, Value)])],
            [Table(2, [At(1, 1, Value)]), Table(3, [At(9, 2, Value)])], levels, 4,
            [Table(6, [At(1, 3, Value), At(9, 4, Value)])])
  }

  // One put, flushed to level 2 behind what is there.
  lemma PutInTwo(s: State, user: UserKey, two: seq<File>) returns (s': State)
    requires Reached(s) && s == State([], None, OneAndTwo([], two), s.manifest, s.lastSequence, [], s.nextFile, None)
    requires forall f :: f in two ==> f.largest.user < user
    requires s.lastSequence + 1 < MAX_SEQUENCE
    requires LevelPlus(two, Table(s.nextFile, [At(user, s.lastSequence + 1, Value)]), two + [Table(s.nextFile, [At(user, s.lastSequence + 1, Value)])])
    ensures Reached(s')
    ensures s' == State([], None, OneAndTwo([], two + [Table(s.nextFile, [At(user, s.lastSequence + 1, Value)])]), s'.manifest,
                        s.lastSequence + 1, [], s.nextFile + 1, None)
  {
    hide Reached, ClearDownTo, LevelPlus;
    var f := Table(s.nextFile, [At(user, s.lastSequence + 1, Value)]);
    OnePut(user, s.lastSequence + 1);
    OneAndTwoClear([], two, user, user);
    assert forall g :: g in [] + two ==> g in two;
    s' := Flushed(s, [Put(user, [])], 2, f, two + [f]);
    assert s'.levels == OneAndTwo([], two + [f]);
  }

  // One put, flushed to level 1 because level 2 has its key.
  lemma PutInOne(s: State, user: UserKey, one: seq<File>, two: seq<File>) returns (s': State)
    requires Reached(s) && s == State([], None, OneAndTwo(one, two), s.manifest, s.lastSequence, [], s.nextFile, None)
    requires forall f :: f in one ==> f.largest.user < user
    requires exists f :: f in two && Overlaps(f, Some(user), Some(user))
    requires s.lastSequence + 1 < MAX_SEQUENCE
    requires LevelPlus(one, Table(s.nextFile, [At(user, s.lastSequence + 1, Value)]), one + [Table(s.nextFile, [At(user, s.lastSequence + 1, Value)])])
    ensures Reached(s')
    ensures s' == State([], None, OneAndTwo(one + [Table(s.nextFile, [At(user, s.lastSequence + 1, Value)])], two), s'.manifest,
                        s.lastSequence + 1, [], s.nextFile + 1, None)
  {
    hide Reached, ClearDownTo, LevelPlus;
    var f := Table(s.nextFile, [At(user, s.lastSequence + 1, Value)]);
    OnePut(user, s.lastSequence + 1);
    OneAndTwoClear(one, two, user, user);
    s' := Flushed(s, [Put(user, [])], 1, f, one + [f]);
    assert s'.levels == OneAndTwo(one + [f], two);
  }

  lemma BothSidesOfGap() returns (s: State)
    ensures Reached(s)
    ensures s == State([], None, OneAndTwo(Bridging([]).upper, Bridging([]).lower), s.manifest, 4, [], 6, None)
  {
    hide Reached, LevelPlus;
    var r := Bridging([]);
    var a, b, c, d := r.lower[0], r.lower[1], r.upper[0], r.upper[1];
    OneFileIn(a);
    TwoFilesIn(a, b);
    OneFileIn(c);
    TwoFilesIn(c, d);
    Appended(a, b);
    Appended(c, d);
    s := Empty();
    s := PutInTwo(s, 1, []);
    s := PutInTwo(s, 9, [a]);
    assert a in r.lower && b in r.lower;
    s := PutInOne(s, 1, [], r.lower);
    s := PutInOne(s, 9, [c], r.lower);
  }

  lemma Appended(f: File, g: File)
    ensures [] + [f] == [f] && [f] + [g] == [f, g]
  {
  }

  lemma TwoFileInputs(levels: Levels, a: File, b: File, lower: seq<File>)
    requires ValidLevels(levels) && levels[1] == [a, b]
    requires lower == Overlapping(levels[2], Some(a.smallest.user), Some(b.largest.user))
    ensures GoodInputs(levels, 1, [a, b], lower)
  {
    LevelShape(levels, 1);
    TwoFileRange(levels[1], a, b);
    AllFilesClosed(levels[1], b.largest);
    hide ValidLevels, Overlapping, UserRange, VersionClosed;
  }

  lemma AllFilesClosed(files: seq<File>, largest: IKey)
    requires files != [] && IsLargest(files, largest) && forall f :: f in files ==> !IsBoundaryFile(f, largest)
    ensures VersionClosed(1, files, files)
  {
    hide IsLargest, IsBoundaryFile;
    assert files == files[0..|files|];
    forall key, f | IsLargest(files, key) && f in files ensures !IsBoundaryFile(f, key) {
      LargestKeyUnique(files, key, largest);
    }
  }

  lemma TwoFileRange(files: seq<File>, a: File, b: File)
    requires files == [a, b] && ValidFiles(files) && SortedDisjoint(files)
    ensures IsLargest(files, b.largest) && UserRange(files, a.smallest.user, b.largest.user)
    ensures forall f :: f in files ==> !IsBoundaryFile(f, b.largest)
  {
    assert a in files && b in files && Precedes(files[0], files[1]);
    FileRange(a);
    FileRange(b);
    hide File.Valid;
    assert IsSmallest(files, a.smallest) && IsLargest(files, b.largest);
  }

  lemma BridgingInputs(levels: Levels)
    requires ValidLevels(levels) && levels == OneAndTwo(Bridging([]).upper, Bridging([]).lower)
    ensures GoodInputs(levels, 1, Bridging([]).upper, Bridging([]).lower)
  {
    hide ValidLevels, GoodInputs, Overlapping;
    var upper, lower := Bridging([]).upper, Bridging([]).lower;
    assert levels[1] == upper == [upper[0], upper[1]] && levels[2] == lower == [lower[0], lower[1]];
    TwoOverlap(lower[0], lower[1], 1, 9);
    TwoFileInputs(levels, upper[0], upper[1], lower);
  }

  lemma BridgingOutputs(levels: Levels)
    ensures GoodOutputs(Bridging(levels), 6, 7)
  {
    hide BaseLevel, Hidden;
    var r := Bridging(levels);
    BridgingInputEntries(r);
    OlderHidden(InputEntries(r.upper, r.lower));
    hide InputEntries, EntriesOf;
    EntriesOfOne(r.outputs[0]);
    assert forall h :: h in r.outputs ==> h == r.outputs[0];
    assert r.outputs[0].Valid();
    assert SurvivingEntries(r) == {At(1, 3, Value), At(9, 4, Value)};
  }

  lemma BridgingInputEntries(r: Running)
    requires r == Bridging(r.inputVersion)
    ensures InputEntries(r.upper, r.lower) == {At(1, 1, Value), At(9, 2, Value), At(1, 3, Value), At(9, 4, Value)}
  {
    EntriesOfTwo(r.upper[0], r.upper[1]);
    EntriesOfTwo(r.lower[0], r.lower[1]);
  }

  lemma OlderHidden(inputs: set<Entry>)
    requires inputs == {At(1, 1, Value), At(9, 2, Value), At(1, 3, Value), At(9, 4, Value)}
    ensures Hidden(inputs, At(1, 1, Value), 4) && Hidden(inputs, At(9, 2, Value), 4)
    ensures !Hidden(inputs, At(1, 3, Value), 4) && !Hidden(inputs, At(9, 4, Value), 4)
  {
    assert At(1, 3, Value) in inputs && At(9, 4, Value) in inputs;
  }

  // The table of key 5, which the compaction does not know of.
  function InTheGap(): File {
    Table(7, [At(5, 5, Value)])
  }

  lemma GapState() returns (s: State)
    ensures Reached(s) && s.running.Some? && s.running == Some(Bridging(s.running.value.inputVersion))
    ensures Flushable(s, 2, InTheGap()) && LevelPlus(s.levels[2], InTheGap(), [Bridging([]).lower[0], InTheGap(), Bridging([]).lower[1]])
  {
    hide Reached, GoodInputs, GoodOutputs, ValidLevels, Inv, ClearDownTo, ListSorted;
    s := BothSidesOfGap();
    var r, f := Bridging(s.levels), InTheGap();
    ReachedLevels(s);
    BridgingInputs(s.levels);
    BridgingOutputs(s.levels);
    s := Begun(s, r, 7);
    OnePut(5, 5);
    s := Switched(s, [Put(5, [])], f.entries);
    OneAndTwoClear(r.upper, r.lower, 5, 5);
    GapSorted(r.lower[0], f, r.lower[1]);
  }

  lemma GapSorted(f: File, g: File, h: File)
    requires FileLess(f, g) && FileLess(g, h) && FileLess(f, h)
    ensures ListSorted([f, g, h]) && LevelPlus([f, h], g, [f, g, h])
  {
    assert forall k :: k in [f, g, h] <==> k == f || k == g || k == h;
  }

  /** A run from the empty store in which a compaction of level 1 bridges a gap of level 2, and a
      flush finds levels 0 to 2 clear of its key and goes into the gap: once the compaction is
      installed, two files of level 2 overlap. */
  lemma FlushFallsIntoGap() returns (s: State, s': State, s'': State)
    ensures Reached(s) && Step(s, s', DoFlush(2, [InTheGap()])) && Step(s', s'', DoFinish)
    ensures !ValidLevels(s''.levels)
  {
    hide Reached, ValidLevels, Inv, LevelPlus, ApplyEdit, Flushable;
    s := GapState();
    var f := InTheGap();
    ReachedInv(s);
    s' := FlushStep(s, 2, f, [Bridging([]).lower[0], f, Bridging([]).lower[1]]);
    var r := s.running.value;
    var edit := CompactionEdit(r.level, r.upper, r.lower, r.outputs);
    s'' := s'.(levels := ApplyEdit(s'.levels, edit), manifest := s'.manifest + [edit], running := None);
    FlushBesideCompactionIff(s, s', s'', 2, f);
    assert f in [f] && r.outputs[0] in r.outputs && !Apart(f, r.outputs[0]);
  }
}
