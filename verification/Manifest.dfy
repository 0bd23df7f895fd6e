/** Starting over from a manifest: a snapshot of the version as one edit, edits folded one after
    the other, and the loops that write and read them. */
module Manifest {
  import opened DbFormat
  import opened Files
  import opened Version
  import opened VersionBuilder
  import opened LevelMoves
  import opened Edits

  // The files of the first n levels, tagged with their levels.
  function SnapshotFiles(levels: Levels, n: nat): seq<(nat, File)>
    requires n <= |levels|
  {
    if n == 0 then [] else SnapshotFiles(levels, n - 1) + Tagged(n - 1, levels[n - 1])
  }

  function SnapshotEdit(levels: Levels): VersionEdit {
    VersionEdit({}, SnapshotFiles(levels, |levels|))
  }

  lemma {:induction false} NewAtConcat(a: seq<(nat, File)>, b: seq<(nat, File)>, l: nat)
    ensures NewAt(a + b, l) == NewAt(a, l) + NewAt(b, l)
  {
    if b == [] {
      assert a + b == a;
    } else {
      NewAtConcat(a, b[..|b| - 1], l);
      assert (a + b)[..|a + b| - 1] == a + b[..|b| - 1];
    }
  }

  lemma {:induction false} NewAtSnapshot(levels: Levels, n: nat, l: nat)
    requires n <= |levels|
    ensures NewAt(SnapshotFiles(levels, n), l) == if l < n then levels[l] else []
  {
    if n > 0 {
      NewAtSnapshot(levels, n - 1, l);
      NewAtConcat(SnapshotFiles(levels, n - 1), Tagged(n - 1, levels[n - 1]), l);
      NewAtTagged(n - 1, levels[n - 1], l);
    }
  }

  lemma SnapshotAt(levels: Levels, l: nat)
    requires ValidLevels(levels) && l < NUM_LEVELS
    ensures ReplayAt([SnapshotEdit(levels)], l) == LevelState({}, levels[l]) && ListSorted(levels[l])
    ensures SavedAt([], LevelState({}, levels[l])) == levels[l]
  {
    var files := levels[l];
    assert ValidLevel(l, files);
    hide ValidLevels, ValidLevel, InsertAll, Saved;
    NewAtSnapshot(levels, NUM_LEVELS, l);
    InsertAllFresh([], files);
    SortedListUnique(InsertAll([], files), files);
    SavedList([], {}, files);
    SortedListUnique(Saved([], {}, files), files);
    assert DeletedAt({}, l) == {};
    assert [SnapshotEdit(levels)][..0] == [];
    assert ReplayAt([SnapshotEdit(levels)], l) == ApplyAt(LevelState({}, []), SnapshotEdit(levels), l);
  }

  /** A manifest that starts with a snapshot of a version replays to that version. */
  lemma SnapshotReplays(levels: Levels)
    requires ValidLevels(levels)
    ensures Replay([SnapshotEdit(levels)]) == levels
    ensures forall l :: 0 <= l < NUM_LEVELS ==> ListSorted(ReplayAt([SnapshotEdit(levels)], l).added)
  {
    assert |levels| == NUM_LEVELS;
    hide ValidLevels, ReplayAt, SnapshotEdit, SavedAt, ListSorted;
    forall l | 0 <= l < NUM_LEVELS
      ensures Replay([SnapshotEdit(levels)])[l] == levels[l]
      ensures ListSorted(ReplayAt([SnapshotEdit(levels)], l).added)
    {
      SnapshotAt(levels, l);
    }
  }

  /** The store may go on from the rewritten manifest: no number is recorded twice. */
  lemma SnapshotKeepsManifestInv(levels: Levels, nextFile: nat)
    requires ValidLevels(levels) && NumbersApart(levels) && NumbersBelow(levels, nextFile)
    ensures ManifestInv(levels, [SnapshotEdit(levels)], nextFile)
  {
    assert |levels| == NUM_LEVELS;
    SnapshotReplays(levels);
    forall l | 0 <= l < NUM_LEVELS ensures ReplayAt([SnapshotEdit(levels)], l).added == levels[l] {
      SnapshotAt(levels, l);
    }
    hide ValidLevels, ReplayAt, SnapshotEdit, ListSorted, Replay;
  }

  // ----- all edits at once, or one after the other -----

  function ApplyEdits(levels: Levels, edits: seq<VersionEdit>): (r: Levels)
    requires |levels| == NUM_LEVELS
    ensures |r| == NUM_LEVELS
  {
    if edits == [] then levels else ApplyEdit(ApplyEdits(levels, edits[..|edits| - 1]), edits[|edits| - 1])
  }

  // No edit adds a number that an earlier one added to the same level.
  ghost predicate AddedOnce(manifest: seq<VersionEdit>, edits: seq<VersionEdit>) {
    forall k, l :: 0 <= k < |edits| && 0 <= l < NUM_LEVELS ==> FreshAt(manifest + edits[..k], edits[k], l)
  }

  /** One builder fed with every edit of a manifest saves what applying its edits one version at a
      time gives, for any number of edits. */
  lemma {:induction false} ReplayIsFold(manifest: seq<VersionEdit>, edits: seq<VersionEdit>)
    requires forall l :: 0 <= l < NUM_LEVELS ==> ListSorted(ReplayAt(manifest, l).added)
    requires AddedOnce(manifest, edits)
    ensures Replay(manifest + edits) == ApplyEdits(Replay(manifest), edits)
    ensures forall l :: 0 <= l < NUM_LEVELS ==> ListSorted(ReplayAt(manifest + edits, l).added)
    decreases edits
  {
    hide ReplayAt, ListSorted, FreshAt, Replay, ApplyEdit;
    if edits == [] {
      assert manifest + edits == manifest;
    } else {
      var n := |edits| - 1;
      var init, last := edits[..n], edits[n];
      forall k, l | 0 <= k < n && 0 <= l < NUM_LEVELS ensures FreshAt(manifest + init[..k], init[k], l) {
        assert init[..k] == edits[..k];
      }
      ReplayIsFold(manifest, init);
      assert manifest + edits == manifest + init + [last];
      ReplayEqualsLive(manifest + init, last, Replay(manifest + init));
    }
  }

  /** A manifest of a snapshot and later edits gives the version of the snapshot with those edits
      applied. */
  lemma SnapshotThenEdits(levels: Levels, edits: seq<VersionEdit>)
    requires ValidLevels(levels) && AddedOnce([SnapshotEdit(levels)], edits)
    ensures |levels| == NUM_LEVELS && Replay([SnapshotEdit(levels)] + edits) == ApplyEdits(levels, edits)
  {
    SnapshotReplays(levels);
    ReplayIsFold([SnapshotEdit(levels)], edits);
  }

  // ----- the loops -----

  method WriteSnapshot(levels: Levels) returns (edit: VersionEdit)
    ensures edit == SnapshotEdit(levels)
  {
    edit := VersionEdit({}, []);
    for level := 0 to |levels|
      invariant edit == VersionEdit({}, SnapshotFiles(levels, level))
    {
      var files := levels[level];
      for i := 0 to |files|
        invariant edit == VersionEdit({}, SnapshotFiles(levels, level) + Tagged(level, files[..i]))
      {
        assert Tagged(level, files[..i + 1]) == Tagged(level, files[..i]) + [(level, files[i])];
        edit := edit.(newFiles := edit.newFiles + [(level, files[i])]);
      }
      assert files[..|files|] == files;
    }
  }

  method Recover(manifest: seq<VersionEdit>) returns (v: Levels)
    requires forall i :: 0 <= i < |manifest| ==> ValidEdit(manifest[i])
    ensures v == Replay(manifest)
  {
    hide ReplayAt, ApplyAt, ValidEdit, SavedAt;
    var builder := new Builder(seq(NUM_LEVELS, _ => []));
    NothingReplayed();
    for i := 0 to |manifest|
      invariant |builder.levels| == NUM_LEVELS
      invariant forall l :: 0 <= l < NUM_LEVELS ==> builder.levels[l] == ReplayAt(manifest[..i], l)
    {
      forall l | 0 <= l < NUM_LEVELS
        ensures ReplayAt(manifest[..i + 1], l) == ApplyAt(ReplayAt(manifest[..i], l), manifest[i], l)
      {
        ReplayedOneMore(manifest, i, l);
      }
      builder.Apply(manifest[i]);
    }
    assert manifest[..|manifest|] == manifest;
    v := builder.SaveTo();
  }

  lemma NothingReplayed()
    ensures forall l :: ReplayAt([], l) == LevelState({}, [])
  {
  }

  lemma ReplayedOneMore(manifest: seq<VersionEdit>, i: nat, l: nat)
    requires i < |manifest|
    ensures ReplayAt(manifest[..i + 1], l) == ApplyAt(ReplayAt(manifest[..i], l), manifest[i], l)
  {
    assert manifest[..i + 1][..i] == manifest[..i];
  }
}
