/** What the edits of flushes, moves and compactions do to the levels and to the manifest. */
module Edits {
  import opened DbFormat
  import opened Files
  import opened Version
  import opened VersionBuilder
  import opened LevelMoves

  function Tagged(level: nat, files: seq<File>): seq<(nat, File)> {
    seq(|files|, i requires 0 <= i < |files| => (level, files[i]))
  }

  function Deletions(level: nat, files: seq<File>): set<(nat, nat)> {
    set f | f in files :: (level, f.number)
  }

  function FlushEdit(level: nat, files: seq<File>): VersionEdit {
    VersionEdit({}, Tagged(level, files))
  }

  // Covers the trivial move: one input, no overlap, and the input itself as output.
  function CompactionEdit(level: nat, upper: seq<File>, lower: seq<File>, outputs: seq<File>): VersionEdit {
    VersionEdit(Deletions(level, upper) + Deletions(level + 1, lower), Tagged(level + 1, outputs))
  }

  lemma {:induction false} NewAtTagged(level: nat, files: seq<File>, l: nat)
    ensures NewAt(Tagged(level, files), l) == if l == level then files else []
  {
    if files != [] {
      var init := files[..|files| - 1];
      NewAtTagged(level, init, l);
      assert Tagged(level, files)[..|files| - 1] == Tagged(level, init);
    }
  }

  lemma DeletedAtCompaction(level: nat, upper: seq<File>, lower: seq<File>, l: nat)
    ensures DeletedAt(Deletions(level, upper) + Deletions(level + 1, lower), l) ==
            if l == level then Numbers(upper) else if l == level + 1 then Numbers(lower) else {}
  {
    var all := Deletions(level, upper) + Deletions(level + 1, lower);
    forall n: nat ensures (l, n) in all <==> (l == level && n in Numbers(upper)) || (l == level + 1 && n in Numbers(lower)) {
      if l == level && n in Numbers(upper) {
        var f :| f in upper && f.number == n;
        assert (level, f.number) in Deletions(level, upper);
      }
      if l == level + 1 && n in Numbers(lower) {
        var f :| f in lower && f.number == n;
        assert (level + 1, f.number) in Deletions(level + 1, lower);
      }
    }
  }

  // No number of the new files is in use in the level.
  ghost predicate NumbersUnused(files: seq<File>, added: seq<File>) {
    forall f, g :: f in added && g in files ==> f.number != g.number
  }

  lemma FlushIsAdded(levels: Levels, level: nat, f: File)
    requires ValidLevels(levels) && level < NUM_LEVELS
    requires NumbersUnused(levels[level], [f])
    ensures Added(levels, level, f, ApplyEdit(levels, FlushEdit(level, [f])))
  {
    hide ValidLevel, ListSorted, ApplyEdit, NewerAbove;
    var edit := FlushEdit(level, [f]);
    forall l | 0 <= l < NUM_LEVELS
      ensures ListSorted(ApplyEdit(levels, edit)[l])
      ensures l != level ==> ApplyEdit(levels, edit)[l] == levels[l]
      ensures forall g :: g in ApplyEdit(levels, edit)[level] <==> g in levels[level] || g == f
    {
      NewAtTagged(level, [f], l);
      NewAtTagged(level, [f], level);
      LevelListSorted(levels, l);
      LevelListSorted(levels, level);
      ApplyEditAt(levels, edit, l);
      ApplyEditAt(levels, edit, level);
      if l != level {
        SortedListUnique(ApplyEdit(levels, edit)[l], levels[l]);
      }
    }
  }

  lemma LevelListSorted(levels: Levels, level: nat)
    requires ValidLevels(levels) && level < NUM_LEVELS
    ensures ListSorted(levels[level]) && DistinctNumbers(levels[level])
  {
    assert ValidLevel(level, levels[level]);
  }

  lemma UndeletedAreLeft(files: seq<File>, chosen: seq<File>, f: File)
    requires NumbersIdentify(files) && forall g :: g in chosen ==> g in files
    requires f in files
    ensures f.number in Numbers(chosen) <==> f in chosen
  {
  }

  lemma CompactionIsMoved(levels: Levels, level: nat, upper: seq<File>, lower: seq<File>, outputs: seq<File>)
    requires ValidLevels(levels) && level + 1 < NUM_LEVELS
    requires forall f :: f in upper ==> f in levels[level]
    requires forall f :: f in lower ==> f in levels[level + 1]
    requires DistinctNumbers(outputs) && NumbersUnused(levels[level + 1], outputs)
    ensures Moved(levels, level, upper, lower, outputs, ApplyEdit(levels, CompactionEdit(level, upper, lower, outputs)))
  {
    hide ValidLevel, ListSorted, ApplyEdit, NewerAbove, NewAt, Tagged, Deletions;
    var edit := CompactionEdit(level, upper, lower, outputs);
    var levels' := ApplyEdit(levels, edit);
    forall l | 0 <= l < NUM_LEVELS
      ensures ListSorted(levels'[l])
      ensures forall f :: f in levels'[l] <==>
                (f in levels[l] && f.number !in DeletedAt(edit.deletedFiles, l)) || (l == level + 1 && f in outputs)
      ensures l != level && l != level + 1 ==> levels'[l] == levels[l]
    {
      NewAtTagged(level + 1, outputs, l);
      DeletedAtCompaction(level, upper, lower, l);
      LevelListSorted(levels, l);
      ApplyEditAt(levels, edit, l);
      if l != level && l != level + 1 {
        SortedListUnique(levels'[l], levels[l]);
      }
    }
    LeftByNumber(levels, level, upper, lower);
  }

  lemma LeftByNumber(levels: Levels, level: nat, upper: seq<File>, lower: seq<File>)
    requires ValidLevels(levels) && level + 1 < NUM_LEVELS
    requires forall f :: f in upper ==> f in levels[level]
    requires forall f :: f in lower ==> f in levels[level + 1]
    ensures var deleted := Deletions(level, upper) + Deletions(level + 1, lower);
            && (forall f :: f in levels[level] ==> (f.number in DeletedAt(deleted, level) <==> f in upper))
            && (forall f :: f in levels[level + 1] ==> (f.number in DeletedAt(deleted, level + 1) <==> f in lower))
  {
    hide ValidLevel, ListSorted, NewerAbove, Deletions, Numbers;
    LevelListSorted(levels, level);
    LevelListSorted(levels, level + 1);
    DistinctIdentify(levels[level]);
    DistinctIdentify(levels[level + 1]);
    DeletedAtCompaction(level, upper, lower, level);
    DeletedAtCompaction(level, upper, lower, level + 1);
    forall f | f in levels[level] ensures f.number in Numbers(upper) <==> f in upper {
      UndeletedAreLeft(levels[level], upper, f);
    }
    forall f | f in levels[level + 1] ensures f.number in Numbers(lower) <==> f in lower {
      UndeletedAreLeft(levels[level + 1], lower, f);
    }
  }

  // ----- the manifest -----

  ghost predicate NumbersApart(levels: Levels) {
    forall i, j, f, g :: 0 <= i < j < |levels| && f in levels[i] && g in levels[j] ==> f.number != g.number
  }

  ghost predicate NumbersBelow(levels: Levels, nextFile: nat) {
    forall i, f :: 0 <= i < |levels| && f in levels[i] ==> f.number < nextFile
  }

  ghost predicate RecordedBelow(manifest: seq<VersionEdit>, nextFile: nat) {
    forall l, g :: 0 <= l < NUM_LEVELS && g in ReplayAt(manifest, l).added ==> g.number < nextFile
  }

  ghost predicate NotRecordedDeeper(levels: Levels, manifest: seq<VersionEdit>)
    requires |levels| == NUM_LEVELS
  {
    forall l, l', f, g :: 0 <= l < l' < NUM_LEVELS && f in levels[l] && g in ReplayAt(manifest, l').added ==> f.number != g.number
  }

  /** The manifest replays to the live levels, and no file is recorded at a level it may still
      move to. */
  ghost predicate ManifestInv(levels: Levels, manifest: seq<VersionEdit>, nextFile: nat) {
    && levels == Replay(manifest)
    && (forall l :: 0 <= l < NUM_LEVELS ==> ListSorted(ReplayAt(manifest, l).added))
    && RecordedBelow(manifest, nextFile)
    && NotRecordedDeeper(levels, manifest)
  }

  // The files recorded by an edit that adds files to one level.
  ghost predicate RecordsMore(manifest: seq<VersionEdit>, manifest': seq<VersionEdit>, level: nat, added: seq<File>) {
    forall l, g :: 0 <= l < NUM_LEVELS ==>
      (g in ReplayAt(manifest', l).added <==> g in ReplayAt(manifest, l).added || (l == level && g in added))
  }

  // No file is in a level that was not there before, except the added ones at theirs.
  ghost predicate OnlyAdds(levels: Levels, level: nat, added: seq<File>, levels': Levels)
    requires |levels| == |levels'| == NUM_LEVELS
  {
    forall l, f :: 0 <= l < NUM_LEVELS && f in levels'[l] ==> f in levels[l] || (l == level && f in added)
  }

  lemma ManifestStep(levels: Levels, manifest: seq<VersionEdit>, nextFile: nat, deleted: set<(nat, nat)>,
                     level: nat, added: seq<File>, levels': Levels, nextFile': nat)
    requires ManifestInv(levels, manifest, nextFile) && nextFile <= nextFile' && level < NUM_LEVELS
    requires levels' == ApplyEdit(levels, VersionEdit(deleted, Tagged(level, added)))
    requires DistinctNumbers(added) && forall f :: f in added ==> f.number < nextFile'
    requires forall l, f, g :: level <= l < NUM_LEVELS && f in added && g in ReplayAt(manifest, l).added ==> f.number != g.number
    requires |levels'| == NUM_LEVELS && OnlyAdds(levels, level, added, levels')
    requires forall l, f, g :: 0 <= l < level && f in levels'[l] && g in added ==> f.number != g.number
    ensures ManifestInv(levels', manifest + [VersionEdit(deleted, Tagged(level, added))], nextFile')
  {
    hide ListSorted, Replay, ApplyEdit, RecordedBelow, NotRecordedDeeper, OnlyAdds;
    var edit := VersionEdit(deleted, Tagged(level, added));
    forall l | 0 <= l < NUM_LEVELS
      ensures FreshAt(manifest, edit, l)
      ensures forall g :: g in ReplayAt(manifest + [edit], l).added <==> g in ReplayAt(manifest, l).added || (l == level && g in added)
    {
      ManifestAdded(manifest, edit, level, added, l);
    }
    assert RecordsMore(manifest, manifest + [edit], level, added);
    ReplayEqualsLive(manifest, edit, levels);
    MoreRecordedBelow(manifest, nextFile, level, added, manifest + [edit], nextFile');
    MoreNotRecordedDeeper(levels, manifest, level, added, levels', manifest + [edit]);
  }

  lemma MoreRecordedBelow(manifest: seq<VersionEdit>, nextFile: nat, level: nat, added: seq<File>, manifest': seq<VersionEdit>, nextFile': nat)
    requires RecordedBelow(manifest, nextFile) && RecordsMore(manifest, manifest', level, added) && nextFile <= nextFile'
    requires forall f :: f in added ==> f.number < nextFile'
    ensures RecordedBelow(manifest', nextFile')
  {
    hide ReplayAt;
  }

  lemma MoreNotRecordedDeeper(levels: Levels, manifest: seq<VersionEdit>, level: nat, added: seq<File>,
                              levels': Levels, manifest': seq<VersionEdit>)
    requires |levels| == |levels'| == NUM_LEVELS && level < NUM_LEVELS
    requires NotRecordedDeeper(levels, manifest) && RecordsMore(manifest, manifest', level, added)
    requires forall l, f, g :: level <= l < NUM_LEVELS && f in added && g in ReplayAt(manifest, l).added ==> f.number != g.number
    requires |levels'| == NUM_LEVELS && OnlyAdds(levels, level, added, levels')
    requires forall l, f, g :: 0 <= l < level && f in levels'[l] && g in added ==> f.number != g.number
    ensures NotRecordedDeeper(levels', manifest')
  {
    hide ReplayAt;
    forall l, l', f, g | 0 <= l < l' < NUM_LEVELS && f in levels'[l] && g in ReplayAt(manifest', l').added
      ensures f.number != g.number
    {
      assert g in ReplayAt(manifest, l').added || (l' == level && g in added);
    }
  }

  lemma ManifestAdded(manifest: seq<VersionEdit>, edit: VersionEdit, level: nat, added: seq<File>, l: nat)
    requires edit.newFiles == Tagged(level, added) && DistinctNumbers(added)
    requires ListSorted(ReplayAt(manifest, l).added)
    requires l == level ==> forall f, g :: f in added && g in ReplayAt(manifest, l).added ==> f.number != g.number
    ensures FreshAt(manifest, edit, l)
    ensures forall g :: g in ReplayAt(manifest + [edit], l).added <==> g in ReplayAt(manifest, l).added || (l == level && g in added)
  {
    NewAtTagged(level, added, l);
    assert (manifest + [edit])[..|manifest|] == manifest;
    InsertAllFresh(ReplayAt(manifest, l).added, NewAt(edit.newFiles, l));
  }
}
