/** The children of the merging iterator that the user's iterator runs on: memtables, the files of
    level 0 one by one, and one concatenation for every deeper level. */
module InternalIterator {
  import opened DbFormat
  import opened Files
  import opened Version
  import opened CompactionInputs
  import opened Picked
  import opened Lsm
  import opened LsmInvariant
  import Merger

  // The tables of the files, one list each.
  function Lists(files: seq<File>): seq<seq<Entry>> {
    seq(|files|, i requires 0 <= i < |files| => files[i].entries)
  }

  // What a concatenating iterator walks through.
  function Concatenated(files: seq<File>): seq<Entry> {
    if files == [] then [] else Concatenated(files[..|files| - 1]) + files[|files| - 1].entries
  }

  // One list for every level from i on that has files.
  function DeepLists(levels: Levels, i: nat): seq<seq<Entry>>
    requires i <= |levels|
    decreases |levels| - i
  {
    if i == |levels| then []
    else (if levels[i] == [] then [] else [Concatenated(levels[i])]) + DeepLists(levels, i + 1)
  }

  function Sources(s: State): seq<seq<Entry>>
    requires |s.levels| == NUM_LEVELS
  {
    [s.mem] + (if s.imm.Some? then [s.imm.value] else []) + (Lists(s.levels[0]) + DeepLists(s.levels, 1))
  }

  // Of any two lists, one is newer than the other for every user key.
  ghost predicate Layered(lists: seq<seq<Entry>>) {
    forall i, j :: 0 <= i < j < |lists| ==>
      NewerAbove(AsSet(lists[i]), AsSet(lists[j])) || NewerAbove(AsSet(lists[j]), AsSet(lists[i]))
  }

  ghost predicate Cover(lists: seq<seq<Entry>>, entries: set<Entry>) {
    && (forall i :: 0 <= i < |lists| ==> StrictlySorted(lists[i]))
    && Layered(lists)
    && Merger.UnionOf(lists) == entries
  }

  lemma CoverUnion(lists: seq<seq<Entry>>, entries: set<Entry>)
    requires Cover(lists, entries)
    ensures Merger.UnionOf(lists) == entries
  {
  }

  lemma NoSources()
    ensures Cover([], {})
  {
  }

  lemma OneSource(es: seq<Entry>)
    requires StrictlySorted(es)
    ensures Cover([es], AsSet(es))
  {
    assert [es][0] == es;
  }

  lemma JoinSources(a: seq<seq<Entry>>, ea: set<Entry>, b: seq<seq<Entry>>, eb: set<Entry>)
    requires Cover(a, ea) && Cover(b, eb) && NewerAbove(ea, eb)
    ensures Cover(a + b, ea + eb)
  {
    hide StrictlySorted;
    var lists := a + b;
    forall i, j | 0 <= i < |a| <= j < |lists| ensures NewerAbove(AsSet(lists[i]), AsSet(lists[j])) {
      assert AsSet(a[i]) <= ea && AsSet(b[j - |a|]) <= eb;
    }
    forall e ensures e in Merger.UnionOf(lists) <==> e in ea + eb {
      if e in ea {
        var i :| 0 <= i < |a| && e in a[i];
        assert e in lists[i];
      }
      if e in eb {
        var j :| 0 <= j < |b| && e in b[j];
        assert e in lists[|a| + j];
      }
    }
  }

  // Lists that are layered share no key, so the merging iterator may run over them.
  lemma CoverMerges(lists: seq<seq<Entry>>, entries: set<Entry>)
    requires Cover(lists, entries)
    ensures Merger.GoodLists(lists)
  {
    hide StrictlySorted;
    forall i, j, d, e | 0 <= i < j < |lists| && d in lists[i] && e in lists[j] ensures d.key != e.key {
      assert d in AsSet(lists[i]) && e in AsSet(lists[j]);
    }
  }

  lemma ListsOfFiles(files: seq<File>)
    ensures Merger.UnionOf(Lists(files)) == EntriesOf(files)
  {
    forall e ensures e in Merger.UnionOf(Lists(files)) <==> e in EntriesOf(files) {
      if e in EntriesOf(files) {
        var f :| f in files && e in f.entries;
        var i :| 0 <= i < |files| && files[i] == f;
        assert e in Lists(files)[i];
      }
    }
  }

  lemma Level0Cover(files: seq<File>)
    requires ValidLevel(0, files)
    ensures Cover(Lists(files), EntriesOf(files))
  {
    hide StrictlySorted, UniqueVersions, NewerAbove, ListSorted;
    var lists := Lists(files);
    forall i | 0 <= i < |files| ensures StrictlySorted(lists[i]) && AsSet(lists[i]) == EntriesOf([files[i]]) {
      EntriesOfOne(files[i]);
      assert files[i].Valid();
    }
    forall i, j | 0 <= i < j < |files|
      ensures NewerAbove(AsSet(lists[i]), AsSet(lists[j])) || NewerAbove(AsSet(lists[j]), AsSet(lists[i]))
    {
      assert files[i] in files && files[j] in files;
    }
    ListsOfFiles(files);
  }

  // The entries of a sorted level one file after the other are sorted.
  lemma {:induction false} ConcatenatedSorted(files: seq<File>)
    requires ValidFiles(files) && SortedDisjoint(files)
    ensures StrictlySorted(Concatenated(files)) && AsSet(Concatenated(files)) == EntriesOf(files)
    ensures files != [] ==> forall e :: e in Concatenated(files) ==> e.key.AtMost(files[|files| - 1].largest)
  {
    if files != [] {
      var n := |files| - 1;
      var init, last := files[..n], files[n];
      assert files == init + [last];
      assert ValidFiles(init) && SortedDisjoint(init);
      hide StrictlySorted, ValidFiles, SortedDisjoint, EntriesOf;
      ConcatenatedSorted(init);
      EntriesOfConcat(init, [last]);
      EntriesOfOne(last);
      AppendFile(Concatenated(init), init, last);
      assert AsSet(Concatenated(init) + last.entries) == AsSet(Concatenated(init)) + AsSet(last.entries);
    }
  }

  lemma AppendFile(before: seq<Entry>, init: seq<File>, last: File)
    requires StrictlySorted(before) && ValidFiles(init + [last]) && SortedDisjoint(init + [last])
    requires init == [] ==> before == []
    requires init != [] ==> forall e :: e in before ==> e.key.AtMost(init[|init| - 1].largest)
    ensures StrictlySorted(before + last.entries)
    ensures forall e :: e in before + last.entries ==> e.key.AtMost(last.largest)
  {
    var files := init + [last];
    assert last in files && last.Valid();
    FileRange(last);
    if init != [] {
      assert Precedes(files[|init| - 1], files[|init|]);
      forall i, j | 0 <= i < |before| && 0 <= j < |last.entries| ensures before[i].key.Less(last.entries[j].key) {
        assert before[i] in before && last.entries[j] in last.entries;
        EntryBounds(last, last.entries[j]);
      }
    }
    forall e | e in last.entries ensures e.key.AtMost(last.largest) {
      EntryBounds(last, e);
    }
  }

  lemma {:induction false} DeepCover(levels: Levels, i: nat)
    requires ValidLevels(levels) && 0 < i <= |levels|
    ensures Cover(DeepLists(levels, i), EntriesFrom(levels, i))
    decreases |levels| - i
  {
    hide ValidLevels, Cover, EntriesOf;
    if i == |levels| {
      NoSources();
    } else {
      DeepCover(levels, i + 1);
      LevelAboveRest(levels, i);
      OneLevelCover(levels, i);
      hide NewerAbove;
      var here := if levels[i] == [] then [] else [Concatenated(levels[i])];
      JoinSources(here, EntriesOf(levels[i]), DeepLists(levels, i + 1), EntriesFrom(levels, i + 1));
    }
  }

  lemma OneLevelCover(levels: Levels, i: nat)
    requires ValidLevels(levels) && 0 < i < |levels|
    ensures Cover(if levels[i] == [] then [] else [Concatenated(levels[i])], EntriesOf(levels[i]))
  {
    hide Cover, StrictlySorted, EntriesOf, Concatenated;
    SevenLevels(levels);
    LevelShape(levels, i);
    hide ValidLevels, ValidFiles, SortedDisjoint, DistinctNumbers, ValidLevel;
    ConcatenatedSorted(levels[i]);
    if levels[i] == [] {
      NoSources();
      NoEntries();
    } else {
      OneSource(Concatenated(levels[i]));
    }
  }

  lemma SevenLevels(levels: Levels)
    requires ValidLevels(levels)
    ensures |levels| == NUM_LEVELS
  {
  }

  /** The sources of a store hold exactly its entries, and no two of them share a key. */
  lemma SourcesCover(s: State)
    requires Inv(s)
    ensures |s.levels| == NUM_LEVELS && Cover(Sources(s), AllEntries(s))
    ensures Merger.GoodLists(Sources(s)) && UniqueVersions(AllEntries(s))
  {
    InvLevels(s);
    AllUnique(s);
    FileSources(s.levels);
    MemSources(s);
    hide *;
    assert |s.levels| == NUM_LEVELS;
    CoverMerges(Sources(s), AllEntries(s));
  }

  lemma FileSources(levels: Levels)
    requires ValidLevels(levels)
    ensures Cover(Lists(levels[0]) + DeepLists(levels, 1), EntriesFrom(levels, 0))
  {
    assert ValidLevel(0, levels[0]);
    LevelAboveRest(levels, 0);
    hide ValidLevel, Cover, NewerAbove;
    Level0Cover(levels[0]);
    DeepCover(levels, 1);
    JoinSources(Lists(levels[0]), EntriesOf(levels[0]), DeepLists(levels, 1), EntriesFrom(levels, 1));
  }

  lemma MemSources(s: State)
    requires Inv(s) && |s.levels| == NUM_LEVELS
    requires Cover(Lists(s.levels[0]) + DeepLists(s.levels, 1), EntriesFrom(s.levels, 0))
    ensures Cover(Sources(s), AllEntries(s))
  {
    hide VersionInv, RunningInv, SnapshotInv, Cover, StrictlySorted, UniqueVersions, EntriesFrom, Lists, DeepLists, AsSet;
    var below, files := Lists(s.levels[0]) + DeepLists(s.levels, 1), EntriesFrom(s.levels, 0);
    OneSource(s.mem);
    if s.imm.Some? {
      OneSource(s.imm.value);
      hide NewerAbove;
      JoinSources([s.mem], AsSet(s.mem), [s.imm.value], AsSet(s.imm.value));
      NewerOnUnionsAbove(AsSet(s.mem), AsSet(s.imm.value), files);
      JoinSources([s.mem] + [s.imm.value], AsSet(s.mem) + AsSet(s.imm.value), below, files);
    } else {
      JoinSources([s.mem], AsSet(s.mem), below, files);
      assert [s.mem] + [] == [s.mem] && AsSet(s.mem) + {} == AsSet(s.mem);
    }
  }

  lemma NewerOnUnionsAbove(a: set<Entry>, b: set<Entry>, c: set<Entry>)
    requires NewerAbove(a, c) && NewerAbove(b, c)
    ensures NewerAbove(a + b, c)
  {
  }
}
