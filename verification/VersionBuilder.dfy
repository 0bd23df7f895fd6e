/** Version edits, and the builder that applies one or many of them to a version. */
module VersionBuilder {
  import opened DbFormat
  import opened Files
  import opened Version

  // std::set::insert: an equivalent file that is already there stays.
  function InsertFile(f: File, sorted: seq<File>): seq<File> {
    if sorted == [] then [f]
    else if FileLess(f, sorted[0]) then [f] + sorted
    else if SameFile(f, sorted[0]) then sorted
    else [sorted[0]] + InsertFile(f, sorted[1..])
  }

  lemma {:induction false} InsertFileSorted(f: File, sorted: seq<File>)
    requires ListSorted(sorted)
    ensures ListSorted(InsertFile(f, sorted))
    ensures forall g :: g in InsertFile(f, sorted) ==> g == f || g in sorted
    ensures forall g :: g in sorted ==> g in InsertFile(f, sorted)
    ensures (forall g :: g in sorted ==> !SameFile(f, g)) ==> f in InsertFile(f, sorted)
  {
    if sorted == [] || FileLess(f, sorted[0]) || SameFile(f, sorted[0]) {
    } else {
      InsertFileSorted(f, sorted[1..]);
      var r := InsertFile(f, sorted[1..]);
      forall j | 0 <= j < |r| ensures FileLess(sorted[0], r[j]) {
        assert r[j] in r;
      }
    }
  }

  // ----- edits -----

  datatype VersionEdit = VersionEdit(deletedFiles: set<(nat, nat)>, newFiles: seq<(nat, File)>)

  function DeletedAt(deletedFiles: set<(nat, nat)>, level: nat): set<nat> {
    set p | p in deletedFiles && p.0 == level :: p.1
  }

  function NewAt(newFiles: seq<(nat, File)>, level: nat): seq<File> {
    if newFiles == [] then []
    else NewAt(newFiles[..|newFiles| - 1], level) +
         (if newFiles[|newFiles| - 1].0 == level then [newFiles[|newFiles| - 1].1] else [])
  }

  function Numbers(files: seq<File>): set<nat> {
    set f | f in files :: f.number
  }

  // std::set built by inserting the files in order
  function InsertAll(sorted: seq<File>, files: seq<File>): seq<File> {
    if files == [] then sorted
    else InsertFile(files[|files| - 1], InsertAll(sorted, files[..|files| - 1]))
  }

  // ----- SaveTo -----

  // The walk over base and added files in SaveTo, before deleted files are left out.
  function Merge(base: seq<File>, added: seq<File>): seq<File> {
    if added == [] then base
    else if base != [] && !FileLess(added[0], base[0]) then [base[0]] + Merge(base[1..], added)
    else [added[0]] + Merge(base, added[1..])
  }

  function Undeleted(files: seq<File>, deleted: set<nat>): seq<File> {
    if files == [] then []
    else (if files[0].number in deleted then [] else [files[0]]) + Undeleted(files[1..], deleted)
  }

  function Saved(base: seq<File>, deleted: set<nat>, added: seq<File>): seq<File> {
    Undeleted(Merge(base, added), deleted)
  }

  // The two sorted lists share no file up to equivalence.
  ghost predicate NoCommonFile(a: seq<File>, b: seq<File>) {
    forall f, g :: f in a && g in b ==> !SameFile(f, g)
  }

  lemma {:induction false} MergeSorted(base: seq<File>, added: seq<File>)
    requires ListSorted(base) && ListSorted(added) && NoCommonFile(base, added)
    ensures ListSorted(Merge(base, added))
    ensures forall f :: f in Merge(base, added) <==> f in base || f in added
    decreases |base| + |added|
  {
    if added == [] {
    } else if base != [] && !FileLess(added[0], base[0]) {
      MergeSorted(base[1..], added);
      assert FileLess(base[0], added[0]) by {
        assert base[0] in base && added[0] in added;
      }
      LessThanAll(base[0], added);
      Prepend(base[0], base[1..], added, Merge(base[1..], added));
      assert base == [base[0]] + base[1..];
    } else {
      MergeSorted(base, added[1..]);
      if base != [] {
        LessThanAll(added[0], base);
      }
      Prepend(added[0], base, added[1..], Merge(base, added[1..]));
      assert added == [added[0]] + added[1..];
    }
  }

  lemma LessThanAll(f: File, files: seq<File>)
    requires ListSorted(files) && files != [] && FileLess(f, files[0])
    ensures forall i :: 0 <= i < |files| ==> FileLess(f, files[i])
  {
    forall i | 0 <= i < |files| ensures FileLess(f, files[i]) {
      assert i > 0 ==> FileLess(files[0], files[i]);
    }
  }

  lemma Prepend(first: File, a: seq<File>, b: seq<File>, rest: seq<File>)
    requires ListSorted(rest)
    requires forall i :: 0 <= i < |a| ==> FileLess(first, a[i])
    requires forall i :: 0 <= i < |b| ==> FileLess(first, b[i])
    requires forall f :: f in rest ==> f in a || f in b
    ensures ListSorted([first] + rest)
  {
    forall j | 0 <= j < |rest| ensures FileLess(first, rest[j]) {
      assert rest[j] in rest;
    }
  }

  lemma {:induction false} UndeletedSorted(files: seq<File>, deleted: set<nat>)
    requires ListSorted(files)
    ensures ListSorted(Undeleted(files, deleted))
    ensures forall f :: f in Undeleted(files, deleted) <==> f in files && f.number !in deleted
  {
    if files != [] {
      UndeletedSorted(files[1..], deleted);
      var r := Undeleted(files[1..], deleted);
      forall j | 0 <= j < |r| ensures FileLess(files[0], r[j]) {
        assert r[j] in r && r[j] in files[1..];
      }
    }
  }

  lemma HeadIsLeast(files: seq<File>, f: File)
    requires ListSorted(files) && f in files
    ensures f == files[0] || FileLess(files[0], f)
    ensures f in files[1..] <==> f != files[0]
  {
    var i :| 0 <= i < |files| && files[i] == f;
    assert i > 0 ==> files[1..][i - 1] == f;
  }

  lemma HasMember(files: seq<File>)
    ensures files != [] ==> exists f :: f in files
  {
    if files != [] {
      assert files[0] in files;
    }
  }

  /** A sorted file list is determined by the files in it. */
  lemma {:induction false} SortedListUnique(a: seq<File>, b: seq<File>)
    requires ListSorted(a) && ListSorted(b)
    requires forall f :: f in a <==> f in b
    ensures a == b
  {
    if a != [] && b != [] {
      HeadIsLeast(a, b[0]);
      HeadIsLeast(b, a[0]);
      forall f ensures f in a[1..] <==> f in b[1..] {
        if f in a {
          HeadIsLeast(a, f);
          HeadIsLeast(b, f);
        }
      }
      SortedListUnique(a[1..], b[1..]);
    } else {
      HasMember(a);
      HasMember(b);
    }
  }

  // ----- the builder -----

  datatype LevelState = LevelState(deleted: set<nat>, added: seq<File>)

  // Builder::Apply at one level: deletions first, then additions, which cancel a deletion.
  function ApplyAt(state: LevelState, edit: VersionEdit, level: nat): LevelState {
    AfterAdds(AfterDeletes(state, edit.deletedFiles, level), edit.newFiles, level)
  }

  function AfterDeletes(state: LevelState, deletedFiles: set<(nat, nat)>, level: nat): LevelState {
    LevelState(state.deleted + DeletedAt(deletedFiles, level), state.added)
  }

  function AfterAdds(state: LevelState, newFiles: seq<(nat, File)>, level: nat): LevelState {
    LevelState(state.deleted - Numbers(NewAt(newFiles, level)), InsertAll(state.added, NewAt(newFiles, level)))
  }

  function SavedAt(base: seq<File>, state: LevelState): seq<File> {
    Saved(base, state.deleted, state.added)
  }

  ghost predicate ValidEdit(edit: VersionEdit) {
    && (forall p :: p in edit.deletedFiles ==> p.0 < NUM_LEVELS)
    && (forall p :: p in edit.newFiles ==> p.0 < NUM_LEVELS)
  }

  class Builder {
    const base: Levels
    var levels: seq<LevelState>

    constructor (base: Levels)
      ensures this.base == base
      ensures levels == seq(NUM_LEVELS, _ => LevelState({}, []))
    {
      this.base := base;
      levels := seq(NUM_LEVELS, _ => LevelState({}, []));
    }

    method Apply(edit: VersionEdit)
      requires |levels| == NUM_LEVELS && ValidEdit(edit)
      modifies this
      ensures |levels| == NUM_LEVELS
      ensures forall l :: 0 <= l < NUM_LEVELS ==> levels[l] == ApplyAt(old(levels)[l], edit, l)
    {
      hide InsertAll, InsertFile, NewAt, DeletedAt, Numbers;
      NothingApplied();
      var rest := edit.deletedFiles;
      ghost var done := {};
      while rest != {}
        invariant |levels| == NUM_LEVELS && done + rest == edit.deletedFiles
        invariant forall l :: 0 <= l < NUM_LEVELS ==> levels[l] == AfterDeletes(old(levels)[l], done, l)
        decreases rest
      {
        var p :| p in rest;
        DeleteOne(done, p);
        levels := levels[p.0 := levels[p.0].(deleted := levels[p.0].deleted + {p.1})];
        done, rest := done + {p}, rest - {p};
      }
      assert done == edit.deletedFiles && edit.newFiles[..0] == [];
      for i := 0 to |edit.newFiles|
        invariant |levels| == NUM_LEVELS
        invariant forall l :: 0 <= l < NUM_LEVELS ==>
                    levels[l] == AfterAdds(AfterDeletes(old(levels)[l], edit.deletedFiles, l), edit.newFiles[..i], l)
      {
        var (level, f) := edit.newFiles[i];
        assert (level, f) in edit.newFiles;
        AddOne(edit.newFiles, i, old(levels)[level].added);
        levels := levels[level := LevelState(levels[level].deleted - {f.number}, InsertFile(f, levels[level].added))];
      }
      assert edit.newFiles[..|edit.newFiles|] == edit.newFiles;
    }

    /** One merging walk per level, leaving out the deleted files on both sides. */
    method SaveTo() returns (v: Levels)
      requires |levels| == |base| == NUM_LEVELS
      ensures |v| == NUM_LEVELS
      ensures forall l :: 0 <= l < NUM_LEVELS ==> v[l] == SavedAt(base[l], levels[l])
    {
      v := [];
      for level := 0 to NUM_LEVELS
        invariant |v| == level
        invariant forall l :: 0 <= l < level ==> v[l] == SavedAt(base[l], levels[l])
      {
        var saved := SaveLevel(base[level], levels[level].deleted, levels[level].added);
        v := v + [saved];
      }
    }
  }

  lemma NothingApplied()
    ensures forall l :: DeletedAt({}, l) == {} && NewAt([], l) == []
    ensures Numbers([]) == {}
    ensures forall added :: InsertAll(added, []) == added
  {
  }

  lemma DeleteOne(done: set<(nat, nat)>, p: (nat, nat))
    ensures forall l :: l != p.0 ==> DeletedAt(done + {p}, l) == DeletedAt(done, l)
    ensures DeletedAt(done + {p}, p.0) == DeletedAt(done, p.0) + {p.1}
  {
    assert p in done + {p} && p.1 in DeletedAt(done + {p}, p.0);
    assert forall q :: q in done + {p} <==> q in done || q == p;
  }

  lemma AddOne(newFiles: seq<(nat, File)>, i: nat, added: seq<File>)
    requires i < |newFiles|
    ensures forall l :: l != newFiles[i].0 ==> NewAt(newFiles[..i + 1], l) == NewAt(newFiles[..i], l)
    ensures var (level, f) := newFiles[i];
            && InsertAll(added, NewAt(newFiles[..i + 1], level)) == InsertFile(f, InsertAll(added, NewAt(newFiles[..i], level)))
            && Numbers(NewAt(newFiles[..i + 1], level)) == Numbers(NewAt(newFiles[..i], level)) + {f.number}
  {
    var (level, f) := newFiles[i];
    assert newFiles[..i + 1][..i] == newFiles[..i];
    var files := NewAt(newFiles[..i], level);
    assert (files + [f])[..|files|] == files;
    assert forall g :: g in files + [f] <==> g in files || g == f;
  }

  method SaveLevel(base: seq<File>, deleted: set<nat>, added: seq<File>) returns (files: seq<File>)
    ensures files == Saved(base, deleted, added)
  {
    hide Saved, Undeleted, FileLess;
    files := [];
    var baseIter := 0;
    for j := 0 to |added|
      invariant 0 <= baseIter <= |base|
      invariant files + Saved(base[baseIter..], deleted, added[j..]) == Saved(base, deleted, added)
    {
      while baseIter < |base| && !FileLess(added[j], base[baseIter])
        invariant 0 <= baseIter <= |base|
        invariant files + Saved(base[baseIter..], deleted, added[j..]) == Saved(base, deleted, added)
      {
        SavedFromBase(base[baseIter..], deleted, added[j..]);
        files := MaybeAddFile(files, deleted, base[baseIter]);
        assert base[baseIter..][1..] == base[baseIter + 1..];
        baseIter := baseIter + 1;
      }
      SavedFromAdded(base[baseIter..], deleted, added[j..]);
      files := MaybeAddFile(files, deleted, added[j]);
      assert added[j..][1..] == added[j + 1..];
    }
    assert added[|added|..] == [];
    NothingAdded(base[baseIter..], deleted);
    while baseIter < |base|
      invariant 0 <= baseIter <= |base|
      invariant files + Undeleted(base[baseIter..], deleted) == Saved(base, deleted, added)
    {
      UndeletedStep(base[baseIter..], deleted);
      files := MaybeAddFile(files, deleted, base[baseIter]);
      assert base[baseIter..][1..] == base[baseIter + 1..];
      baseIter := baseIter + 1;
    }
    assert base[|base|..] == [];
    NothingAdded([], deleted);
  }

  lemma NothingAdded(base: seq<File>, deleted: set<nat>)
    ensures Saved(base, deleted, []) == Undeleted(base, deleted)
    ensures Undeleted([], deleted) == []
  {
  }

  function MaybeAddFile(files: seq<File>, deleted: set<nat>, f: File): seq<File> {
    files + Undeleted([f], deleted)
  }

  lemma UndeletedStep(files: seq<File>, deleted: set<nat>)
    requires files != []
    ensures Undeleted(files, deleted) == Undeleted([files[0]], deleted) + Undeleted(files[1..], deleted)
  {
    assert [files[0]][1..] == [];
    assert Undeleted([files[0]], deleted) == if files[0].number in deleted then [] else [files[0]];
  }

  lemma SavedFromBase(base: seq<File>, deleted: set<nat>, added: seq<File>)
    requires base != [] && added != [] && !FileLess(added[0], base[0])
    ensures Saved(base, deleted, added) == Undeleted([base[0]], deleted) + Saved(base[1..], deleted, added)
  {
    UndeletedStep(Merge(base, added), deleted);
    assert ([base[0]] + Merge(base[1..], added))[1..] == Merge(base[1..], added);
  }

  lemma SavedFromAdded(base: seq<File>, deleted: set<nat>, added: seq<File>)
    requires added != [] && (base == [] || FileLess(added[0], base[0]))
    ensures Saved(base, deleted, added) == Undeleted([added[0]], deleted) + Saved(base, deleted, added[1..])
  {
    UndeletedStep(Merge(base, added), deleted);
    assert ([added[0]] + Merge(base, added[1..]))[1..] == Merge(base, added[1..]);
  }

  // ----- one edit at a time, and all edits through one builder -----

  // LogAndApply: a fresh builder on the current version.
  function ApplyEdit(levels: Levels, edit: VersionEdit): (r: Levels)
    requires |levels| == NUM_LEVELS
    ensures |r| == NUM_LEVELS
  {
    seq(NUM_LEVELS, l requires 0 <= l < NUM_LEVELS => SavedAt(levels[l], ApplyAt(LevelState({}, []), edit, l)))
  }

  // Recover: one builder on the empty version, fed with every edit of the manifest.
  function ReplayAt(manifest: seq<VersionEdit>, level: nat): LevelState {
    if manifest == [] then LevelState({}, [])
    else ApplyAt(ReplayAt(manifest[..|manifest| - 1], level), manifest[|manifest| - 1], level)
  }

  function Replay(manifest: seq<VersionEdit>): (r: Levels)
    ensures |r| == NUM_LEVELS
  {
    seq(NUM_LEVELS, l requires 0 <= l < NUM_LEVELS => SavedAt([], ReplayAt(manifest, l)))
  }

  // The edit adds only numbers that no earlier edit has added to the same level.
  ghost predicate FreshAt(manifest: seq<VersionEdit>, edit: VersionEdit, level: nat) {
    var files := NewAt(edit.newFiles, level);
    && DistinctNumbers(files)
    && forall f, g :: f in files && g in ReplayAt(manifest, level).added ==> f.number != g.number
  }

  lemma {:induction false} InsertAllFresh(sorted: seq<File>, files: seq<File>)
    requires ListSorted(sorted)
    requires DistinctNumbers(files)
    requires forall f, g :: f in files && g in sorted ==> f.number != g.number
    ensures ListSorted(InsertAll(sorted, files))
    ensures forall f :: f in InsertAll(sorted, files) <==> f in sorted || f in files
  {
    if files != [] {
      var init, last := files[..|files| - 1], files[|files| - 1];
      InsertAllFresh(sorted, init);
      InsertFileSorted(last, InsertAll(sorted, init));
      assert forall g :: g in files <==> g in init || g == last;
      hide ListSorted, DistinctNumbers, InsertFile;
      forall g | g in InsertAll(sorted, init) ensures !SameFile(last, g) {
        if g in init {
          LastIsFresh(files, g);
        }
      }
    }
  }

  lemma LastIsFresh(files: seq<File>, g: File)
    requires DistinctNumbers(files) && files != [] && g in files[..|files| - 1]
    ensures g.number != files[|files| - 1].number
  {
    var i :| 0 <= i < |files| - 1 && files[i] == g;
  }

  lemma SavedList(base: seq<File>, deleted: set<nat>, added: seq<File>)
    requires ListSorted(base) && ListSorted(added) && NoCommonFile(base, added)
    ensures ListSorted(Saved(base, deleted, added))
    ensures forall f :: f in Saved(base, deleted, added) <==> (f in base || f in added) && f.number !in deleted
  {
    MergeSorted(base, added);
    UndeletedSorted(Merge(base, added), deleted);
  }

  // What LogAndApply makes of a level: the undeleted files and the new ones, in order.
  lemma ApplyEditAt(levels: Levels, edit: VersionEdit, level: nat)
    requires |levels| == NUM_LEVELS && level < NUM_LEVELS && ListSorted(levels[level])
    requires var files := NewAt(edit.newFiles, level);
             && DistinctNumbers(files)
             && (forall f, g :: f in files && g in levels[level] ==> f.number != g.number)
    ensures ListSorted(ApplyEdit(levels, edit)[level])
    ensures forall f :: f in ApplyEdit(levels, edit)[level] <==>
              (f in levels[level] && f.number !in DeletedAt(edit.deletedFiles, level)) || f in NewAt(edit.newFiles, level)
  {
    hide InsertAll, NewAt, Saved;
    var files := NewAt(edit.newFiles, level);
    InsertAllFresh([], files);
    var state := ApplyAt(LevelState({}, []), edit, level);
    SavedList(levels[level], state.deleted, state.added);
    assert ApplyEdit(levels, edit)[level] == SavedAt(levels[level], state);
    assert forall f :: f in files ==> f.number in Numbers(files);
  }

  lemma ReplayOneMore(manifest: seq<VersionEdit>, edit: VersionEdit, level: nat, files: seq<File>)
    requires files == SavedAt([], ReplayAt(manifest, level))
    requires ListSorted(ReplayAt(manifest, level).added)
    requires FreshAt(manifest, edit, level)
    ensures ListSorted(ReplayAt(manifest + [edit], level).added)
    ensures SavedAt([], ReplayAt(manifest + [edit], level)) == SavedAt(files, ApplyAt(LevelState({}, []), edit, level))
  {
    var old', new' := ReplayAt(manifest, level), NewAt(edit.newFiles, level);
    assert (manifest + [edit])[..|manifest|] == manifest;
    InsertAllFresh(old'.added, new');
    InsertAllFresh([], new');
    var state := ReplayAt(manifest + [edit], level);
    assert state == ApplyAt(old', edit, level);
    SavedList([], old'.deleted, old'.added);
    SavedList([], state.deleted, state.added);
    var step := ApplyAt(LevelState({}, []), edit, level);
    SavedList(files, step.deleted, step.added);
    SortedListUnique(SavedAt([], state), SavedAt(files, step));
  }

  /** Manifest replay equals the live state: extending the manifest by an edit and replaying it
      from nothing gives what applying the edit to the current version gives. */
  lemma ReplayEqualsLive(manifest: seq<VersionEdit>, edit: VersionEdit, levels: Levels)
    requires levels == Replay(manifest)
    requires forall l :: 0 <= l < NUM_LEVELS ==> ListSorted(ReplayAt(manifest, l).added) && FreshAt(manifest, edit, l)
    ensures Replay(manifest + [edit]) == ApplyEdit(levels, edit)
    ensures forall l :: 0 <= l < NUM_LEVELS ==> ListSorted(ReplayAt(manifest + [edit], l).added)
  {
    forall l | 0 <= l < NUM_LEVELS
      ensures ListSorted(ReplayAt(manifest + [edit], l).added)
      ensures Replay(manifest + [edit])[l] == ApplyEdit(levels, edit)[l]
    {
      ReplayOneMore(manifest, edit, l, levels[l]);
    }
  }
}
