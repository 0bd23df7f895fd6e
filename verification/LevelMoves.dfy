/** Changes of a version that keep its invariant. */
module LevelMoves {
  import opened DbFormat
  import opened Files
  import opened Version

  ghost predicate Apart(f: File, g: File) {
    Precedes(f, g) || Precedes(g, f)
  }

  ghost predicate PairwiseApart(files: seq<File>) {
    forall f, g :: f in files && g in files && f != g ==> f.number != g.number && Apart(f, g)
  }

  ghost predicate NumbersIdentify(files: seq<File>) {
    forall f, g :: f in files && g in files && f.number == g.number ==> f == g
  }

  lemma DistinctIdentify(files: seq<File>)
    requires DistinctNumbers(files)
    ensures NumbersIdentify(files)
  {
  }

  lemma SortedDistinct(files: seq<File>)
    requires ListSorted(files) && NumbersIdentify(files)
    ensures DistinctNumbers(files)
  {
    forall i, j | 0 <= i < j < |files| ensures files[i].number != files[j].number {
      assert FileLess(files[i], files[j]);
    }
  }

  lemma LevelIsApart(level: nat, files: seq<File>)
    requires level > 0 && ValidLevel(level, files)
    ensures PairwiseApart(files)
  {
    hide UniqueVersions, ListSorted;
  }

  lemma ApartLevel(level: nat, files: seq<File>)
    requires level > 0 && ValidFiles(files) && ListSorted(files) && PairwiseApart(files)
    requires UniqueVersions(EntriesOf(files))
    ensures ValidLevel(level, files)
  {
    hide UniqueVersions;
    SortedDistinct(files);
    forall i, j | 0 <= i < j < |files| ensures Precedes(files[i], files[j]) {
      assert FileLess(files[i], files[j]);
      assert files[i] in files && files[j] in files;
      FileRange(files[i]);
      FileRange(files[j]);
    }
  }

  lemma SubLevel(level: nat, files: seq<File>, sub: seq<File>)
    requires ValidLevel(level, files) && ListSorted(sub)
    requires forall f :: f in sub ==> f in files
    ensures ValidLevel(level, sub)
  {
    hide UniqueVersions, NewerAbove, SortedDisjoint;
    assert EntriesOf(sub) <= EntriesOf(files);
    SubsetUnique(EntriesOf(sub), EntriesOf(files));
    DistinctIdentify(files);
    SortedDistinct(sub);
    if level > 0 {
      LevelIsApart(level, files);
      ApartLevel(level, sub);
    }
  }

  lemma NewerOnSubsets(upper: set<Entry>, lower: set<Entry>, upper': set<Entry>, lower': set<Entry>)
    requires NewerAbove(upper, lower) && upper' <= upper && lower' <= lower
    ensures NewerAbove(upper', lower')
  {
  }

  lemma NewerOnUnions(a: set<Entry>, b: set<Entry>, c: set<Entry>)
    ensures NewerAbove(a + b, c) <==> NewerAbove(a, c) && NewerAbove(b, c)
    ensures NewerAbove(c, a + b) <==> NewerAbove(c, a) && NewerAbove(c, b)
  {
  }

  lemma UniqueUnion(upper: set<Entry>, lower: set<Entry>)
    requires UniqueVersions(upper) && UniqueVersions(lower) && NewerAbove(upper, lower)
    ensures UniqueVersions(upper + lower)
  {
  }

  lemma EntriesOfSubset(a: seq<File>, b: seq<File>)
    requires forall f :: f in a ==> f in b
    ensures EntriesOf(a) <= EntriesOf(b)
  {
  }

  lemma LevelShapes(levels: Levels, i: nat)
    requires ValidLevels(levels) && i < NUM_LEVELS
    ensures ValidLevel(i, levels[i])
  {
  }

  // ----- files leave two neighbouring levels, new ones enter the deeper of the two -----

  ghost predicate Moved(levels: Levels, level: nat, upper: seq<File>, lower: seq<File>, outputs: seq<File>, levels': Levels)
    requires |levels| == NUM_LEVELS && level + 1 < NUM_LEVELS
  {
    && |levels'| == NUM_LEVELS
    && (forall i :: 0 <= i < NUM_LEVELS && i != level && i != level + 1 ==> levels'[i] == levels[i])
    && ListSorted(levels'[level]) && ListSorted(levels'[level + 1])
    && (forall f :: f in levels'[level] <==> f in levels[level] && f !in upper)
    && (forall f :: f in levels'[level + 1] <==> (f in levels[level + 1] && f !in lower) || f in outputs)
  }

  // The outputs fit between the files that stay in the level they go to.
  ghost predicate FitsIn(stay: seq<File>, outputs: seq<File>) {
    forall g, o :: g in stay && o in outputs ==> Apart(g, o) && g.number != o.number
  }

  lemma MixedApart(stay: seq<File>, outputs: seq<File>, mixed: seq<File>)
    requires forall f :: f in mixed <==> f in stay || f in outputs
    requires ValidFiles(stay) && ValidFiles(outputs)
    requires PairwiseApart(stay) && PairwiseApart(outputs) && FitsIn(stay, outputs)
    ensures ValidFiles(mixed) && PairwiseApart(mixed)
  {
    hide Apart;
    forall f, g | f in mixed && g in mixed && f != g ensures f.number != g.number && Apart(f, g) {
      ApartSymmetric(f, g);
    }
  }

  lemma ApartSymmetric(f: File, g: File)
    ensures Apart(f, g) <==> Apart(g, f)
  {
  }

  lemma StayApart(level: nat, files: seq<File>, lower: seq<File>)
    requires level > 0 && ValidLevel(level, files)
    ensures ValidFiles(Without(files, lower)) && PairwiseApart(Without(files, lower))
  {
    hide UniqueVersions, ListSorted, SortedDisjoint, DistinctNumbers;
    LevelIsApart(level, files);
  }

  lemma MixedLevel(level: nat, files: seq<File>, lower: seq<File>, outputs: seq<File>, mixed: seq<File>, entries: set<Entry>)
    requires level > 0 && ValidLevel(level, files) && ListSorted(mixed)
    requires forall f :: f in mixed <==> (f in files && f !in lower) || f in outputs
    requires ValidFiles(outputs) && PairwiseApart(outputs) && FitsIn(Without(files, lower), outputs)
    requires UniqueVersions(entries) && EntriesOf(files) <= entries && EntriesOf(outputs) <= entries
    ensures ValidLevel(level, mixed)
    ensures EntriesOf(mixed) == EntriesOf(Without(files, lower)) + EntriesOf(outputs)
  {
    hide UniqueVersions, ListSorted, ValidLevel, ValidFiles, PairwiseApart, FitsIn, EntriesOf;
    StayApart(level, files, lower);
    MixedApart(Without(files, lower), outputs, mixed);
    EntriesOfConcat(Without(files, lower), outputs);
    EntriesOfSubset(mixed, Without(files, lower) + outputs);
    EntriesOfSubset(Without(files, lower) + outputs, mixed);
    EntriesOfSubset(Without(files, lower), files);
    SubsetUnique(EntriesOf(mixed), entries);
    ApartLevel(level, mixed);
  }

  /** A push-down keeps the version invariant: what stays above is newer, what stays beside is
      apart, and the outputs hold nothing but versions of the inputs. */
  lemma PushDown(levels: Levels, level: nat, upper: seq<File>, lower: seq<File>, outputs: seq<File>, levels': Levels)
    requires ValidLevels(levels) && level + 1 < NUM_LEVELS
    requires Moved(levels, level, upper, lower, outputs, levels')
    requires forall f :: f in upper ==> f in levels[level]
    requires forall f :: f in lower ==> f in levels[level + 1]
    requires ValidFiles(outputs) && PairwiseApart(outputs) && FitsIn(Without(levels[level + 1], lower), outputs)
    requires EntriesOf(outputs) <= EntriesOf(upper) + EntriesOf(lower)
    requires NewerAbove(EntriesOf(Without(levels[level], upper)), EntriesOf(outputs))
    ensures ValidLevels(levels')
  {
    hide UniqueVersions, NewerAbove, ValidLevel, ListSorted, ValidFiles, PairwiseApart, FitsIn, EntriesOf;
    var here, below := EntriesOf(levels[level]), EntriesOf(levels[level + 1]);
    LevelShapes(levels, level);
    LevelShapes(levels, level + 1);
    LevelsUnique(levels, level);
    UniqueUnion(here, below);
    EntriesOfSubset(upper, levels[level]);
    EntriesOfSubset(lower, levels[level + 1]);
    EntriesOfSubset(levels'[level], Without(levels[level], upper));
    EntriesOfSubset(levels'[level], levels[level]);
    EntriesOfSubset(Without(levels[level + 1], lower), levels[level + 1]);
    SubLevel(level, levels[level], levels'[level]);
    MixedLevel(level + 1, levels[level + 1], lower, outputs, levels'[level + 1], here + below);
    forall i | 0 <= i < NUM_LEVELS ensures ValidLevel(i, levels'[i]) {
      LevelShapes(levels, i);
    }
    forall i, j | 0 <= i < j < NUM_LEVELS ensures NewerAbove(EntriesOf(levels'[i]), EntriesOf(levels'[j])) {
      PushDownOrder(levels, level, upper, lower, outputs, levels', i, j);
    }
  }

  lemma LevelsUnique(levels: Levels, i: nat)
    requires ValidLevels(levels) && i < NUM_LEVELS
    ensures UniqueVersions(EntriesOf(levels[i]))
    ensures i + 1 < NUM_LEVELS ==> UniqueVersions(EntriesOf(levels[i + 1]))
    ensures forall j :: i < j < NUM_LEVELS ==> NewerAbove(EntriesOf(levels[i]), EntriesOf(levels[j]))
  {
    hide UniqueVersions, NewerAbove, EntriesOf;
    assert ValidLevel(i, levels[i]);
    if i + 1 < NUM_LEVELS {
      assert ValidLevel(i + 1, levels[i + 1]);
    }
  }

  lemma PushDownOrder(levels: Levels, level: nat, upper: seq<File>, lower: seq<File>, outputs: seq<File>, levels': Levels, i: nat, j: nat)
    requires ValidLevels(levels) && level + 1 < NUM_LEVELS && i < j < NUM_LEVELS && |levels'| == NUM_LEVELS
    requires forall i :: 0 <= i < NUM_LEVELS && i != level && i != level + 1 ==> levels'[i] == levels[i]
    requires EntriesOf(levels'[level]) <= EntriesOf(levels[level])
    requires EntriesOf(levels'[level]) <= EntriesOf(Without(levels[level], upper))
    requires EntriesOf(Without(levels[level + 1], lower)) <= EntriesOf(levels[level + 1])
    requires EntriesOf(levels'[level + 1]) == EntriesOf(Without(levels[level + 1], lower)) + EntriesOf(outputs)
    requires EntriesOf(outputs) <= EntriesOf(levels[level]) + EntriesOf(levels[level + 1])
    requires NewerAbove(EntriesOf(Without(levels[level], upper)), EntriesOf(outputs))
    ensures NewerAbove(EntriesOf(levels'[i]), EntriesOf(levels'[j]))
  {
    hide UniqueVersions, NewerAbove, ValidLevel, EntriesOf;
    var here, below := EntriesOf(levels[level]), EntriesOf(levels[level + 1]);
    if j < NUM_LEVELS {
      if i == level && j == level + 1 {
        NewerOnUnions(EntriesOf(Without(levels[level + 1], lower)), EntriesOf(outputs), EntriesOf(levels'[level]));
        NewerOnSubsets(here, below, EntriesOf(levels'[level]), EntriesOf(Without(levels[level + 1], lower)));
        NewerOnSubsets(EntriesOf(Without(levels[level], upper)), EntriesOf(outputs), EntriesOf(levels'[level]), EntriesOf(outputs));
      } else if i == level {
        NewerOnSubsets(here, EntriesOf(levels[j]), EntriesOf(levels'[level]), EntriesOf(levels[j]));
      } else if i == level + 1 {
        NewerOnUnions(here, below, EntriesOf(levels[j]));
        NewerOnSubsets(here + below, EntriesOf(levels[j]), EntriesOf(levels'[i]), EntriesOf(levels[j]));
      } else if j == level {
        NewerOnSubsets(EntriesOf(levels[i]), here, EntriesOf(levels[i]), EntriesOf(levels'[level]));
      } else if j == level + 1 {
        NewerOnUnions(here, below, EntriesOf(levels[i]));
        NewerOnSubsets(EntriesOf(levels[i]), here + below, EntriesOf(levels[i]), EntriesOf(levels'[j]));
      }
    }
  }

  // ----- a flush -----

  ghost predicate Added(levels: Levels, level: nat, f: File, levels': Levels)
    requires |levels| == NUM_LEVELS && level < NUM_LEVELS
  {
    && |levels'| == NUM_LEVELS
    && (forall i :: 0 <= i < NUM_LEVELS && i != level ==> levels'[i] == levels[i])
    && ListSorted(levels'[level])
    && (forall g :: g in levels'[level] <==> g in levels[level] || g == f)
  }

  // The level a flush may go to: nothing at or above it shares the key range of the file.
  ghost predicate ClearDownTo(levels: Levels, level: nat, low: UserKey, high: UserKey)
    requires level < |levels|
  {
    forall i, g :: 0 <= i <= level && g in levels[i] ==> !Overlaps(g, Some(low), Some(high))
  }

  lemma FlushedNumbers(old': seq<File>, f: File, files: seq<File>)
    requires NumbersIdentify(old') && ListSorted(files)
    requires forall g :: g in old' ==> g.number < f.number
    requires forall g :: g in files <==> g in old' || g == f
    ensures DistinctNumbers(files)
  {
    SortedDistinct(files);
  }

  lemma FlushedAge(old': seq<File>, f: File, files: seq<File>)
    requires NumberedByAge(old')
    requires NewerAbove(AsSet(f.entries), EntriesOf(old'))
    requires forall g :: g in old' ==> g.number < f.number
    requires forall g :: g in files <==> g in old' || g == f
    ensures NumberedByAge(files)
  {
    hide NewerAbove, EntriesOf;
    EntriesOfOne(f);
    forall g, h | g in files && h in files && g.number > h.number ensures NewerAbove(EntriesOf([g]), EntriesOf([h])) {
      if g == f {
        EntriesOfSubset([h], old');
        NewerOnSubsets(AsSet(f.entries), EntriesOf(old'), EntriesOf([g]), EntriesOf([h]));
      }
    }
  }

  lemma FlushedApart(levels: Levels, level: nat, f: File, files: seq<File>)
    requires 0 < level < |levels| && ValidFiles(levels[level]) && PairwiseApart(levels[level]) && f.Valid()
    requires ClearDownTo(levels, level, f.smallest.user, f.largest.user)
    requires forall g :: g in levels[level] ==> g.number < f.number
    requires forall g :: g in files <==> g in levels[level] || g == f
    ensures PairwiseApart(files)
  {
    hide StrictlySorted;
    FileRange(f);
    forall g | g in levels[level] ensures Apart(g, f) && Apart(f, g) {
      FileRange(g);
      assert !Overlaps(g, Some(f.smallest.user), Some(f.largest.user));
    }
  }

  lemma FlushedLevel(levels: Levels, level: nat, f: File, files: seq<File>)
    requires ValidLevels(levels) && level < NUM_LEVELS
    requires f.Valid() && UniqueVersions(AsSet(f.entries))
    requires NewerAbove(AsSet(f.entries), EntriesOf(levels[level]))
    requires forall g :: g in levels[level] ==> g.number < f.number
    requires level > 0 ==> ClearDownTo(levels, level, f.smallest.user, f.largest.user)
    requires ListSorted(files) && forall g :: g in files <==> g in levels[level] || g == f
    ensures ValidLevel(level, files)
    ensures EntriesOf(files) == AsSet(f.entries) + EntriesOf(levels[level])
  {
    hide UniqueVersions, NewerAbove, StrictlySorted, DistinctNumbers, PairwiseApart, ClearDownTo, NumberedByAge, SortedDisjoint, EntriesOf;
    LevelShapes(levels, level);
    EntriesOfOne(f);
    EntriesOfConcat([f], levels[level]);
    EntriesOfSubset(files, [f] + levels[level]);
    EntriesOfSubset([f] + levels[level], files);
    UniqueUnion(AsSet(f.entries), EntriesOf(levels[level]));
    assert EntriesOf(files) == EntriesOf([f] + levels[level]);
    DistinctIdentify(levels[level]);
    FlushedNumbers(levels[level], f, files);
    if level == 0 {
      FlushedAge(levels[level], f, files);
    } else {
      LevelIsApart(level, levels[level]);
      FlushedApart(levels, level, f, files);
      ApartLevel(level, files);
    }
  }

  lemma AddFlushed(levels: Levels, level: nat, f: File, levels': Levels)
    requires ValidLevels(levels) && level < NUM_LEVELS
    requires f.Valid() && UniqueVersions(AsSet(f.entries))
    requires forall i :: 0 <= i < NUM_LEVELS ==> NewerAbove(AsSet(f.entries), EntriesOf(levels[i]))
    requires forall i, g :: 0 <= i < NUM_LEVELS && g in levels[i] ==> g.number < f.number
    requires level > 0 ==> ClearDownTo(levels, level, f.smallest.user, f.largest.user)
    requires Added(levels, level, f, levels')
    ensures ValidLevels(levels')
    ensures EntriesOf(levels'[level]) == AsSet(f.entries) + EntriesOf(levels[level])
  {
    hide UniqueVersions, NewerAbove, ValidLevel, ListSorted, StrictlySorted;
    FlushedLevel(levels, level, f, levels'[level]);
    forall i | 0 <= i < NUM_LEVELS ensures ValidLevel(i, levels'[i]) {
      LevelShapes(levels, i);
    }
    forall i, j | 0 <= i < j < NUM_LEVELS ensures NewerAbove(EntriesOf(levels'[i]), EntriesOf(levels'[j])) {
      LevelsUnique(levels, i);
      if i == level {
        NewerOnUnions(AsSet(f.entries), EntriesOf(levels[i]), EntriesOf(levels[j]));
      } else if j == level {
        DisjointKeys(levels, i, level, f);
        NewerOnUnions(AsSet(f.entries), EntriesOf(levels[j]), EntriesOf(levels[i]));
      }
    }
  }

  lemma DisjointKeys(levels: Levels, i: nat, level: nat, f: File)
    requires ValidLevels(levels) && i < level < NUM_LEVELS
    requires f.Valid() && ClearDownTo(levels, level, f.smallest.user, f.largest.user)
    ensures NewerAbove(EntriesOf(levels[i]), AsSet(f.entries))
  {
    hide UniqueVersions, StrictlySorted;
    LevelShapes(levels, i);
    forall a, b | a in EntriesOf(levels[i]) && b in AsSet(f.entries) ensures a.key.user != b.key.user {
      var g :| g in levels[i] && a in g.entries;
      EntryBounds(g, a);
      EntryBounds(f, b);
      assert !Overlaps(g, Some(f.smallest.user), Some(f.largest.user));
    }
  }
}
