/** A version: the seven levels, what keeps them consistent, and point reads. */
module Version {
  import opened DbFormat
  import opened Files
  import opened VersionSearch

  type Levels = seq<seq<File>>

  // Entries of levels i and deeper.
  ghost function EntriesFrom(levels: Levels, i: nat): set<Entry>
    requires i <= |levels|
    decreases |levels| - i
  {
    if i == |levels| then {} else EntriesOf(levels[i]) + EntriesFrom(levels, i + 1)
  }

  ghost predicate NumberedByAge(files: seq<File>) {
    forall f, g :: f in files && g in files && f.number > g.number ==> NewerAbove(EntriesOf([f]), EntriesOf([g]))
  }

  ghost predicate DistinctNumbers(files: seq<File>) {
    forall i, j :: 0 <= i < j < |files| ==> files[i].number != files[j].number
  }

  ghost predicate ValidLevel(level: nat, files: seq<File>) {
    && ValidFiles(files)
    && ListSorted(files)
    && DistinctNumbers(files)
    && UniqueVersions(EntriesOf(files))
    && (if level == 0 then NumberedByAge(files) else SortedDisjoint(files))
  }

  /** The invariant of a version: every level has its shape, and a level holds only newer
      versions of a user key than the levels below it. */
  ghost predicate ValidLevels(levels: Levels) {
    && |levels| == NUM_LEVELS
    && (forall i :: 0 <= i < |levels| ==> ValidLevel(i, levels[i]))
    && (forall i, j :: 0 <= i < j < |levels| ==> NewerAbove(EntriesOf(levels[i]), EntriesOf(levels[j])))
  }

  lemma {:induction false} InEntriesFrom(levels: Levels, i: nat, e: Entry)
    requires i <= |levels|
    ensures e in EntriesFrom(levels, i) <==> exists l :: i <= l < |levels| && e in EntriesOf(levels[l])
    decreases |levels| - i
  {
    if i < |levels| {
      InEntriesFrom(levels, i + 1, e);
    }
  }

  lemma LevelAboveRest(levels: Levels, i: nat)
    requires ValidLevels(levels) && i < |levels|
    ensures NewerAbove(EntriesOf(levels[i]), EntriesFrom(levels, i + 1))
  {
    hide ValidLevel, EntriesOf;
    forall a, b | a in EntriesOf(levels[i]) && b in EntriesFrom(levels, i + 1) && a.key.user == b.key.user
      ensures a.key.seqno > b.key.seqno
    {
      InEntriesFrom(levels, i + 1, b);
      var l :| i + 1 <= l < |levels| && b in EntriesOf(levels[l]);
      assert NewerAbove(EntriesOf(levels[i]), EntriesOf(levels[l]));
    }
  }

  lemma {:induction false} VersionsUnique(levels: Levels, i: nat)
    requires ValidLevels(levels) && i <= |levels|
    ensures UniqueVersions(EntriesFrom(levels, i))
    decreases |levels| - i
  {
    hide EntriesOf;
    if i < |levels| {
      VersionsUnique(levels, i + 1);
      LevelAboveRest(levels, i);
      assert ValidLevel(i, levels[i]);
    }
  }

  // ----- point reads -----

  datatype Lookup = NotFound | Found(value: Bytes) | Deleted

  ghost predicate Answers(entries: set<Entry>, user: UserKey, snapshot: nat, r: Lookup) {
    if NoCandidate(entries, user, snapshot) then r == NotFound
    else match Read(entries, user, snapshot)
      case Some(v) => r == Found(v)
      case None => r == Deleted
  }

  /** Seek to the lookup key and look at one entry only. */
  method SeekAndSave(entries: seq<Entry>, user: UserKey, snapshot: nat) returns (r: Lookup)
    requires StrictlySorted(entries)
    requires UniqueVersions(AsSet(entries))
    ensures Answers(AsSet(entries), user, snapshot, r)
  {
    var i := FirstAtOrAfter(entries, LookupKey(user, snapshot));
    SeekFindsNewest(entries, user, snapshot);
    if i < |entries| && entries[i].key.user == user {
      r := if entries[i].key.kind.Value? then Found(entries[i].value) else Deleted;
    } else {
      r := NotFound;
    }
  }

  lemma SeekFindsNewest(entries: seq<Entry>, user: UserKey, snapshot: nat)
    requires StrictlySorted(entries)
    requires UniqueVersions(AsSet(entries))
    ensures var i := FirstAtOrAfter(entries, LookupKey(user, snapshot));
            var all := AsSet(entries);
            if i < |entries| && entries[i].key.user == user
            then !NoCandidate(all, user, snapshot) && Read(all, user, snapshot) == Meaning(entries[i])
            else NoCandidate(all, user, snapshot)
  {
    var i := FirstAtOrAfter(entries, LookupKey(user, snapshot));
    var all := AsSet(entries);
    forall d | d in all && Candidate(d, user, snapshot)
      ensures i < |entries| && entries[i].key.user == user && d.key.seqno <= entries[i].key.seqno
    {
      var j :| 0 <= j < |entries| && entries[j] == d;
      assert j >= i;
      assert j > i ==> entries[i].key.Less(entries[j].key);
    }
    if i < |entries| && entries[i].key.user == user {
      assert IsNewest(all, user, snapshot, entries[i]);
      ReadOfNewest(all, user, snapshot, entries[i]);
    }
  }

  lemma SubsetUnique(a: set<Entry>, b: set<Entry>)
    requires a <= b && UniqueVersions(b)
    ensures UniqueVersions(a)
  {
  }

  /** A sorted level needs at most one file: the first whose largest key is not before the
      lookup key. */
  method SearchLevel(level: nat, files: seq<File>, user: UserKey, snapshot: nat) returns (r: Lookup)
    requires level > 0 && ValidLevel(level, files)
    ensures Answers(EntriesOf(files), user, snapshot, r)
  {
    var index := FindFile(files, LookupKey(user, snapshot));
    if index < |files| && user >= files[index].smallest.user {
      var f := files[index];
      assert f.Valid();
      assert EntriesOf([f]) <= EntriesOf(files);
      SubsetUnique(EntriesOf([f]), EntriesOf(files));
      EntriesOfOne(f);
      r := SeekAndSave(f.entries, user, snapshot);
      OneFileSuffices(level, files, user, snapshot, index);
    } else {
      NoFileSuffices(level, files, user, snapshot, index);
      r := NotFound;
    }
  }

  lemma CandidateNotBefore(f: File, d: Entry, user: UserKey, snapshot: nat)
    requires f.Valid() && d in f.entries && Candidate(d, user, snapshot)
    ensures !f.largest.Less(LookupKey(user, snapshot))
  {
    EntryBounds(f, d);
  }

  lemma OutsideFile(f: File, user: UserKey, snapshot: nat)
    requires f.Valid() && (f.largest.Less(LookupKey(user, snapshot)) || user < f.smallest.user)
    ensures forall d :: d in f.entries ==> !Candidate(d, user, snapshot)
  {
    forall d | d in f.entries ensures !Candidate(d, user, snapshot) {
      EntryBounds(f, d);
    }
  }

  lemma NoFileSuffices(level: nat, files: seq<File>, user: UserKey, snapshot: nat, index: nat)
    requires level > 0 && ValidLevel(level, files) && index <= |files|
    requires forall i :: 0 <= i < index ==> files[i].largest.Less(LookupKey(user, snapshot))
    requires index < |files| ==> user < files[index].smallest.user
    ensures NoCandidate(EntriesOf(files), user, snapshot)
  {
    hide UniqueVersions, DistinctNumbers, ListSorted;
    forall f | f in files ensures forall d :: d in f.entries ==> !Candidate(d, user, snapshot) {
      var i :| 0 <= i < |files| && files[i] == f;
      assert files[i].Valid();
      if i > index {
        assert Precedes(files[index], files[i]) && files[index].Valid();
        FileRange(files[index]);
      }
      OutsideFile(f, user, snapshot);
    }
  }

  lemma OneFileSuffices(level: nat, files: seq<File>, user: UserKey, snapshot: nat, index: nat)
    requires level > 0 && ValidLevel(level, files) && index < |files|
    requires forall i :: 0 <= i < index ==> files[i].largest.Less(LookupKey(user, snapshot))
    requires LookupKey(user, snapshot).AtMost(files[index].largest)
    ensures NoCandidate(EntriesOf(files), user, snapshot) <==> NoCandidate(EntriesOf([files[index]]), user, snapshot)
    ensures Read(EntriesOf(files), user, snapshot) == Read(EntriesOf([files[index]]), user, snapshot)
  {
    var f := files[index];
    var upper, all := EntriesOf([f]), EntriesOf(files);
    assert upper <= all;
    SubsetUnique(upper, all);
    EntriesOfOne(f);
    if NoCandidate(upper, user, snapshot) {
      forall d | d in all && Candidate(d, user, snapshot) ensures false {
        var h := LaterCandidate(level, files, user, snapshot, index, d);
      }
      ReadDependsOnCandidates(all, upper, user, snapshot);
    } else {
      var e := NewestExists(upper, user, snapshot);
      forall d | d in all && Candidate(d, user, snapshot) ensures d.key.seqno <= e.key.seqno {
        var h := LaterCandidate(level, files, user, snapshot, index, d);
      }
      ReadOfNewest(upper, user, snapshot, e);
      ReadOfNewest(all, user, snapshot, e);
    }
  }

  // A candidate anywhere in the level is matched by one in the found file that is at least as new.
  lemma LaterCandidate(level: nat, files: seq<File>, user: UserKey, snapshot: nat, index: nat, d: Entry) returns (h: Entry)
    requires level > 0 && ValidLevel(level, files) && index < |files|
    requires forall i :: 0 <= i < index ==> files[i].largest.Less(LookupKey(user, snapshot))
    requires LookupKey(user, snapshot).AtMost(files[index].largest)
    requires d in EntriesOf(files) && Candidate(d, user, snapshot)
    ensures h in EntriesOf([files[index]]) && Candidate(h, user, snapshot) && d.key.seqno <= h.key.seqno
  {
    hide UniqueVersions, DistinctNumbers;
    var f :| f in files && d in f.entries;
    var i :| 0 <= i < |files| && files[i] == f;
    CandidateNotBefore(f, d, user, snapshot);
    EntryBounds(f, d);
    var g := files[index];
    assert g.Valid();
    if i == index {
      h := d;
      assert g in [g];
    } else {
      assert Precedes(g, f);
      h := g.entries[|g.entries| - 1];
      assert g in [g] && h in g.entries;
    }
  }

  lemma NothingToFind(user: UserKey, snapshot: nat)
    ensures NoCandidate({}, user, snapshot)
    ensures NoCandidate(EntriesOf([]), user, snapshot)
  {
  }

  // ----- level 0 -----

  // std::sort by NewestFirst, on distinct numbers.
  function InsertNewest(f: File, sorted: seq<File>): (r: seq<File>)
    ensures forall g :: g in r <==> g == f || g in sorted
  {
    if sorted == [] || f.number > sorted[0].number then [f] + sorted
    else [sorted[0]] + InsertNewest(f, sorted[1..])
  }

  function NewestFirst(files: seq<File>): (r: seq<File>)
    ensures forall g :: g in r <==> g in files
  {
    if files == [] then [] else InsertNewest(files[0], NewestFirst(files[1..]))
  }

  ghost predicate Descending(files: seq<File>) {
    forall i, j :: 0 <= i < j < |files| ==> files[i].number > files[j].number
  }

  lemma {:induction false} InsertDescending(f: File, sorted: seq<File>)
    requires Descending(sorted) && forall g :: g in sorted ==> g.number != f.number
    ensures Descending(InsertNewest(f, sorted))
  {
    if !(sorted == [] || f.number > sorted[0].number) {
      InsertDescending(f, sorted[1..]);
      var r := InsertNewest(f, sorted[1..]);
      forall j | 0 <= j < |r| ensures sorted[0].number > r[j].number {
        assert r[j] in r;
      }
    }
  }

  lemma {:induction false} NewestFirstDescending(files: seq<File>)
    requires DistinctNumbers(files)
    ensures Descending(NewestFirst(files))
  {
    if files != [] {
      NewestFirstDescending(files[1..]);
      InsertDescending(files[0], NewestFirst(files[1..]));
    }
  }

  function CoveringUser(files: seq<File>, user: UserKey): seq<File> {
    Overlapping(files, Some(user), Some(user))
  }

  /** Level 0: the files whose range covers the key, newest first, until one answers. */
  method SearchLevel0(files: seq<File>, user: UserKey, snapshot: nat) returns (r: Lookup)
    requires ValidLevel(0, files)
    ensures Answers(EntriesOf(files), user, snapshot, r)
  {
    hide NoCandidate, Read, NumberedByAge, UniqueVersions, DistinctNumbers, AsSet, StrictlySorted;
    var tmp := [];
    for i := 0 to |files|
      invariant tmp == CoveringUser(files[..i], user)
    {
      assert files[..i + 1] == files[..i] + [files[i]];
      if user >= files[i].smallest.user && user <= files[i].largest.user {
        tmp := tmp + [files[i]];
      }
    }
    assert files[..|files|] == files;
    OverlappingDistinct(files, Some(user), Some(user));
    NewestFirstDescending(tmp);
    tmp := NewestFirst(tmp);
    CoveringSuffices(files, tmp, user, snapshot);
    var i := 0;
    r := NotFound;
    while i < |tmp|
      invariant 0 <= i <= |tmp|
      invariant r == NotFound
      invariant NoCandidate(EntriesOf(files), user, snapshot) <==> NoCandidate(EntriesOf(tmp[i..]), user, snapshot)
      invariant Read(EntriesOf(files), user, snapshot) == Read(EntriesOf(tmp[i..]), user, snapshot)
    {
      NewestFileFirst(files, tmp[i..], user, snapshot);
      assert tmp[i] in tmp && tmp[i].Valid();
      EntriesOfOne(tmp[i]);
      assert EntriesOf([tmp[i]]) <= EntriesOf(files);
      SubsetUnique(EntriesOf([tmp[i]]), EntriesOf(files));
      r := SeekAndSave(tmp[i].entries, user, snapshot);
      if r != NotFound {
        return;
      }
      assert tmp[i..][1..] == tmp[i + 1..];
      i := i + 1;
    }
    assert tmp[i..] == [];
    NothingToFind(user, snapshot);
  }

  lemma {:induction false} OverlappingDistinct(files: seq<File>, begin: Option<UserKey>, end: Option<UserKey>)
    requires DistinctNumbers(files)
    ensures DistinctNumbers(Overlapping(files, begin, end))
  {
    if files != [] {
      OverlappingDistinct(files[..|files| - 1], begin, end);
      var r := Overlapping(files[..|files| - 1], begin, end);
      forall i | 0 <= i < |r| ensures r[i].number != files[|files| - 1].number {
        assert r[i] in r;
      }
    }
  }

  lemma CoveringSuffices(files: seq<File>, tmp: seq<File>, user: UserKey, snapshot: nat)
    requires ValidLevel(0, files)
    requires forall f :: f in tmp <==> f in CoveringUser(files, user)
    ensures NoCandidate(EntriesOf(files), user, snapshot) <==> NoCandidate(EntriesOf(tmp), user, snapshot)
    ensures Read(EntriesOf(files), user, snapshot) == Read(EntriesOf(tmp), user, snapshot)
  {
    hide UniqueVersions, DistinctNumbers, ListSorted, NumberedByAge, Read;
    assert EntriesOf(tmp) <= EntriesOf(files);
    SubsetUnique(EntriesOf(tmp), EntriesOf(files));
    forall d | d in EntriesOf(files) && Candidate(d, user, snapshot) ensures d in EntriesOf(tmp) {
      var f :| f in files && d in f.entries;
      EntryBounds(f, d);
      assert f in CoveringUser(files, user);
    }
    ReadDependsOnCandidates(EntriesOf(files), EntriesOf(tmp), user, snapshot);
  }

  lemma NewestFileAbove(files: seq<File>, tmp: seq<File>)
    requires NumberedByAge(files) && Descending(tmp) && tmp != []
    requires forall f :: f in tmp ==> f in files
    ensures NewerAbove(EntriesOf([tmp[0]]), EntriesOf(tmp[1..]))
  {
    var upper, lower := EntriesOf([tmp[0]]), EntriesOf(tmp[1..]);
    forall a, b | a in upper && b in lower && a.key.user == b.key.user ensures a.key.seqno > b.key.seqno {
      var g :| g in tmp[1..] && b in g.entries;
      assert tmp[0].number > g.number;
      assert g in [g] && b in EntriesOf([g]);
      assert NewerAbove(EntriesOf([tmp[0]]), EntriesOf([g]));
    }
  }

  lemma NewestFileFirst(files: seq<File>, tmp: seq<File>, user: UserKey, snapshot: nat)
    requires ValidLevel(0, files) && Descending(tmp) && tmp != []
    requires forall f :: f in tmp ==> f in files
    ensures NoCandidate(EntriesOf(tmp), user, snapshot) <==>
            NoCandidate(EntriesOf([tmp[0]]), user, snapshot) && NoCandidate(EntriesOf(tmp[1..]), user, snapshot)
    ensures Read(EntriesOf(tmp), user, snapshot) ==
            if NoCandidate(EntriesOf([tmp[0]]), user, snapshot) then Read(EntriesOf(tmp[1..]), user, snapshot)
            else Read(EntriesOf([tmp[0]]), user, snapshot)
  {
    hide Read, DistinctNumbers, NoCandidate, NewerAbove, NumberedByAge;
    NewestFileAbove(files, tmp);
    assert tmp == [tmp[0]] + tmp[1..];
    EntriesOfConcat([tmp[0]], tmp[1..]);
    assert EntriesOf(tmp) <= EntriesOf(files);
    SubsetUnique(EntriesOf(tmp), EntriesOf(files));
    FirstSourceWins(EntriesOf([tmp[0]]), EntriesOf(tmp[1..]), user, snapshot);
  }

  /** Version::Get: level 0 newest first, then at most one file per deeper level, stopping at
      the first answer. */
  method Get(levels: Levels, user: UserKey, snapshot: nat) returns (r: Lookup)
    requires ValidLevels(levels)
    ensures Answers(EntriesFrom(levels, 0), user, snapshot, r)
  {
    hide NoCandidate, Read, NewerAbove, UniqueVersions, ValidLevel, EntriesOf;
    VersionsUnique(levels, 0);
    LevelAboveRest(levels, 0);
    FirstSourceWins(EntriesOf(levels[0]), EntriesFrom(levels, 1), user, snapshot);
    assert ValidLevel(0, levels[0]);
    r := SearchLevel0(levels[0], user, snapshot);
    if r != NotFound {
      return;
    }
    var level := 1;
    while level < NUM_LEVELS
      invariant 1 <= level <= NUM_LEVELS
      invariant r == NotFound
      invariant NoCandidate(EntriesFrom(levels, 0), user, snapshot) <==> NoCandidate(EntriesFrom(levels, level), user, snapshot)
      invariant Read(EntriesFrom(levels, 0), user, snapshot) == Read(EntriesFrom(levels, level), user, snapshot)
    {
      VersionsUnique(levels, level);
      LevelAboveRest(levels, level);
      FirstSourceWins(EntriesOf(levels[level]), EntriesFrom(levels, level + 1), user, snapshot);
      assert ValidLevel(level, levels[level]);
      r := SearchLevel(level, levels[level], user, snapshot);
      if r != NotFound {
        return;
      }
      level := level + 1;
    }
    NothingToFind(user, snapshot);
  }
}
