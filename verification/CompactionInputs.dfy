/** How a compaction chooses its input files. */
module CompactionInputs {
  import opened DbFormat
  import opened Files
  import opened VersionSearch
  import opened Version

  function TotalFileSize(files: seq<File>): nat {
    if files == [] then 0 else files[0].size + TotalFileSize(files[1..])
  }

  // ----- the range of a set of files -----

  ghost predicate IsSmallest(files: seq<File>, key: IKey) {
    (exists f :: f in files && f.smallest == key) && forall f :: f in files ==> key.AtMost(f.smallest)
  }

  ghost predicate IsLargest(files: seq<File>, key: IKey) {
    (exists f :: f in files && f.largest == key) && forall f :: f in files ==> f.largest.AtMost(key)
  }

  method GetRange(inputs: seq<File>) returns (smallest: IKey, largest: IKey)
    requires inputs != []
    ensures IsSmallest(inputs, smallest) && IsLargest(inputs, largest)
  {
    smallest, largest := inputs[0].smallest, inputs[0].largest;
    for i := 1 to |inputs|
      invariant IsSmallest(inputs[..i], smallest) && IsLargest(inputs[..i], largest)
    {
      var f := inputs[i];
      assert inputs[..i + 1] == inputs[..i] + [f];
      assert forall g :: g in inputs[..i + 1] <==> g in inputs[..i] || g == f;
      if f.smallest.Less(smallest) {
        smallest := f.smallest;
      }
      if largest.Less(f.largest) {
        largest := f.largest;
      }
    }
    assert inputs[..|inputs|] == inputs;
  }

  // ----- boundary files -----

  // f starts with a later (older) version of the user key at which the inputs end.
  ghost predicate IsBoundaryFile(f: File, largest: IKey) {
    largest.Less(f.smallest) && f.smallest.user == largest.user
  }

  ghost predicate BoundaryClosed(levelFiles: seq<File>, inputs: seq<File>) {
    forall key, f :: IsLargest(inputs, key) && f in levelFiles ==> !IsBoundaryFile(f, key)
  }

  method FindSmallestBoundaryFile(levelFiles: seq<File>, largest: IKey) returns (r: Option<File>)
    ensures r.None? ==> forall f :: f in levelFiles ==> !IsBoundaryFile(f, largest)
    ensures r.Some? ==> r.value in levelFiles && IsBoundaryFile(r.value, largest)
    ensures r.Some? ==> forall f :: f in levelFiles && IsBoundaryFile(f, largest) ==> r.value.smallest.AtMost(f.smallest)
  {
    r := None;
    for i := 0 to |levelFiles|
      invariant r.None? ==> forall j :: 0 <= j < i ==> !IsBoundaryFile(levelFiles[j], largest)
      invariant r.Some? ==> r.value in levelFiles && IsBoundaryFile(r.value, largest)
      invariant r.Some? ==> forall j :: 0 <= j < i && IsBoundaryFile(levelFiles[j], largest) ==> r.value.smallest.AtMost(levelFiles[j].smallest)
    {
      var f := levelFiles[i];
      if largest.Less(f.smallest) && f.smallest.user == largest.user {
        if r.None? || f.smallest.Less(r.value.smallest) {
          r := Some(f);
        }
      }
    }
  }

  ghost function FilesAfter(levelFiles: seq<File>, key: IKey): set<File> {
    set f | f in levelFiles && key.Less(f.smallest)
  }

  ghost predicate Contiguous(files: seq<File>, inputs: seq<File>) {
    exists a, b :: 0 <= a < b <= |files| && inputs == files[a..b]
  }

  // Left-out files share no user key with any input.
  ghost predicate Isolated(files: seq<File>, inputs: seq<File>) {
    forall f, g :: f in inputs && g in files && g !in inputs ==>
      g.largest.user < f.smallest.user || f.largest.user < g.smallest.user
  }

  // f is the file that goes on where the inputs end.
  ghost predicate Continues(levelFiles: seq<File>, inputs: seq<File>, f: File) {
    exists key :: IsLargest(inputs, key) && f in levelFiles && IsBoundaryFile(f, key)
                  && forall g :: g in levelFiles && IsBoundaryFile(g, key) ==> f.smallest.AtMost(g.smallest)
  }

  // r is the seed and, one after the other, every file that goes on where the ones before it end.
  ghost predicate Chain(levelFiles: seq<File>, seed: seq<File>, r: seq<File>) {
    && seed <= r && BoundaryClosed(levelFiles, r)
    && forall i :: |seed| <= i < |r| ==> Continues(levelFiles, r[..i], r[i])
  }

  /** Adds the files that continue the last user key of the inputs, one after the other. */
  method AddBoundaryInputs(levelFiles: seq<File>, compactionFiles: seq<File>) returns (r: seq<File>)
    requires ValidFiles(levelFiles)
    requires forall f :: f in compactionFiles ==> f in levelFiles
    ensures compactionFiles <= r && (compactionFiles == [] ==> r == [])
    ensures forall f :: f in r ==> f in levelFiles
    ensures BoundaryClosed(levelFiles, r) && Chain(levelFiles, compactionFiles, r)
    ensures Isolated(levelFiles, compactionFiles) ==> r == compactionFiles
    ensures DistinctNumbers(levelFiles) && DistinctNumbers(compactionFiles) ==> DistinctNumbers(r)
    ensures SortedDisjoint(levelFiles) && Contiguous(levelFiles, compactionFiles) ==> Contiguous(levelFiles, r)
  {
    r := compactionFiles;
    if compactionFiles == [] {
      return;
    }
    var _, largest := GetRange(compactionFiles);
    var continueSearching := true;
    while continueSearching
      invariant compactionFiles != [] && compactionFiles <= r
      invariant forall f :: f in r ==> f in levelFiles
      invariant IsLargest(r, largest)
      invariant ChainSoFar(levelFiles, |compactionFiles|, r)
      invariant !continueSearching ==> forall f :: f in levelFiles ==> !IsBoundaryFile(f, largest)
      decreases continueSearching, |FilesAfter(levelFiles, largest)|
    {
      var smallestBoundaryFile := FindSmallestBoundaryFile(levelFiles, largest);
      hide IsLargest, ValidFiles, FilesAfter, IsBoundaryFile, ChainSoFar;
      if smallestBoundaryFile.Some? {
        var f := smallestBoundaryFile.value;
        BoundaryExtends(levelFiles, r, largest, f);
        ChainExtends(levelFiles, |compactionFiles|, r, f);
        r := r + [f];
        largest := f.largest;
      } else {
        continueSearching := false;
      }
    }
    hide DistinctNumbers, Isolated, Contiguous, SortedDisjoint, IsLargest, ValidFiles, FilesAfter, IsBoundaryFile, Continues;
    NoBoundaryLeft(levelFiles, r, largest);
    ChainDistinct(levelFiles, compactionFiles, r, |r|);
    assert r[..|r|] == r;
    IsolatedEnds(levelFiles, compactionFiles, r);
    ChainContiguous(levelFiles, compactionFiles, r);
  }

  ghost predicate ChainSoFar(levelFiles: seq<File>, n: nat, r: seq<File>) {
    forall i :: n <= i < |r| ==> Continues(levelFiles, r[..i], r[i])
  }

  lemma {:induction false} ChainDistinct(levelFiles: seq<File>, seed: seq<File>, r: seq<File>, n: nat)
    requires Chain(levelFiles, seed, r) && |seed| <= n <= |r|
    requires ValidFiles(levelFiles) && forall f :: f in r ==> f in levelFiles
    ensures DistinctNumbers(levelFiles) && DistinctNumbers(seed) ==> DistinctNumbers(r[..n])
    decreases n
  {
    hide DistinctNumbers, BoundaryClosed, Continues, ValidFiles;
    if n == |seed| {
      assert r[..n] == seed;
    } else {
      ChainDistinct(levelFiles, seed, r, n - 1);
      assert Continues(levelFiles, r[..n - 1], r[n - 1]);
      NewInChain(levelFiles, r[..n - 1], r[n - 1]);
      DistinctExtends(levelFiles, r[..n - 1], r[n - 1]);
      assert r[..n] == r[..n - 1] + [r[n - 1]];
    }
  }

  lemma NewInChain(levelFiles: seq<File>, inputs: seq<File>, f: File)
    requires ValidFiles(levelFiles) && Continues(levelFiles, inputs, f) && forall g :: g in inputs ==> g in levelFiles
    ensures f in levelFiles && f !in inputs && !Isolated(levelFiles, inputs)
  {
    var key :| IsLargest(inputs, key) && f in levelFiles && IsBoundaryFile(f, key)
               && forall g :: g in levelFiles && IsBoundaryFile(g, key) ==> f.smallest.AtMost(g.smallest);
    BoundaryExtends(levelFiles, inputs, key, f);
  }

  lemma IsolatedEnds(levelFiles: seq<File>, seed: seq<File>, r: seq<File>)
    requires ValidFiles(levelFiles) && Chain(levelFiles, seed, r) && forall g :: g in seed ==> g in levelFiles
    ensures Isolated(levelFiles, seed) ==> r == seed
  {
    hide Continues, BoundaryClosed, Isolated, ValidFiles;
    if |r| > |seed| {
      assert Continues(levelFiles, r[..|seed|], r[|seed|]) && r[..|seed|] == seed;
      NewInChain(levelFiles, seed, r[|seed|]);
    } else {
      assert r == seed;
    }
  }

  lemma ChainContiguous(levelFiles: seq<File>, seed: seq<File>, r: seq<File>)
    requires ValidFiles(levelFiles) && Chain(levelFiles, seed, r)
    ensures SortedDisjoint(levelFiles) && Contiguous(levelFiles, seed) ==> Contiguous(levelFiles, r)
  {
    hide Continues, BoundaryClosed, ValidFiles, SortedDisjoint;
    if SortedDisjoint(levelFiles) && Contiguous(levelFiles, seed) {
      var a, b :| 0 <= a < b <= |levelFiles| && seed == levelFiles[a..b];
      var e := ChainIsRun(levelFiles, a, b, r);
    }
  }

  lemma ChainExtends(levelFiles: seq<File>, n: nat, r: seq<File>, f: File)
    requires ChainSoFar(levelFiles, n, r) && Continues(levelFiles, r, f)
    ensures ChainSoFar(levelFiles, n, r + [f])
  {
    hide Continues;
    forall i | n <= i < |r| + 1 ensures Continues(levelFiles, (r + [f])[..i], (r + [f])[i]) {
      assert (r + [f])[..i] == r[..i];
      assert i == |r| ==> r[..i] == r;
    }
  }

  // In a sorted level the chain behind a run of files is the neighbours that share a user key.
  lemma {:induction false} ChainPart(files: seq<File>, a: nat, b: nat, r: seq<File>, n: nat)
    requires ValidFiles(files) && SortedDisjoint(files) && a < b <= |files| && Chain(files, files[a..b], r) && b - a <= n <= |r|
    ensures a + n <= |files| && r[..n] == files[a..a + n]
    ensures forall j :: b <= j < a + n ==> files[j - 1].largest.user == files[j].smallest.user
    decreases n
  {
    hide SortedDisjoint, ValidFiles, IsLargest, IsBoundaryFile, BoundaryClosed, Continues;
    if n == b - a {
      assert r[..n] == files[a..b];
    } else {
      ChainPart(files, a, b, r, n - 1);
      var e := a + n - 1;
      assert Continues(files, r[..n - 1], r[n - 1]);
      NextInRun(files, a, e, r[n - 1]);
      assert r[..n] == r[..n - 1] + [r[n - 1]];
      assert files[a..a + n] == files[a..e] + [files[e]];
    }
  }

  // What continues a run of files is the next file.
  lemma NextInRun(files: seq<File>, a: nat, e: nat, f: File)
    requires ValidFiles(files) && SortedDisjoint(files) && a < e <= |files| && Continues(files, files[a..e], f)
    ensures e < |files| && f == files[e] && files[e - 1].largest.user == f.smallest.user
  {
    hide SortedDisjoint, ValidFiles, IsLargest, IsBoundaryFile;
    var key :| IsLargest(files[a..e], key) && f in files && IsBoundaryFile(f, key)
               && forall g :: g in files && IsBoundaryFile(g, key) ==> f.smallest.AtMost(g.smallest);
    ContiguousLargest(files, a, e);
    LargestKeyUnique(files[a..e], key, files[e - 1].largest);
    FollowsLast(files, e, f);
    BoundaryMeets(f, files[e - 1].largest);
  }

  lemma BoundaryMeets(f: File, key: IKey)
    requires IsBoundaryFile(f, key)
    ensures f.smallest.user == key.user
  {
  }

  /** Below level 0 a run of neighbours is extended exactly as far as neighbours share a user key,
      so it becomes the least closed run that contains it. */
  lemma ChainIsRun(files: seq<File>, a: nat, b: nat, r: seq<File>) returns (e: nat)
    requires ValidFiles(files) && SortedDisjoint(files) && a < b <= |files| && Chain(files, files[a..b], r)
    ensures b <= e <= |files| && r == files[a..e]
    ensures forall j :: b <= j < e ==> files[j - 1].largest.user == files[j].smallest.user
    ensures e < |files| ==> files[e - 1].largest.user < files[e].smallest.user
    ensures forall x, y :: 0 <= x <= a && b <= y <= |files| && BoundaryClosed(files, files[x..y]) ==> e <= y
  {
    hide BoundaryClosed, IsLargest, SortedDisjoint, ValidFiles;
    e := a + |r|;
    ChainPart(files, a, b, r, |r|);
    assert r[..|r|] == r;
    if e < |files| {
      NotMet(files, a, e);
    }
    forall x, y | 0 <= x <= a && b <= y <= |files| && BoundaryClosed(files, files[x..y]) ensures e <= y {
      if y < e {
        NotMet(files, x, y);
      }
    }
  }

  // A closed run ends between user keys.
  lemma NotMet(files: seq<File>, a: nat, e: nat)
    requires ValidFiles(files) && SortedDisjoint(files) && a < e < |files| && BoundaryClosed(files, files[a..e])
    ensures files[e - 1].largest.user < files[e].smallest.user
  {
    ContiguousLargest(files, a, e);
    assert files[e] in files && Precedes(files[e - 1], files[e]);
  }

  lemma NoBoundaryLeft(levelFiles: seq<File>, inputs: seq<File>, largest: IKey)
    requires IsLargest(inputs, largest)
    requires forall f :: f in levelFiles ==> !IsBoundaryFile(f, largest)
    ensures BoundaryClosed(levelFiles, inputs)
  {
    forall key, f | IsLargest(inputs, key) && f in levelFiles ensures !IsBoundaryFile(f, key) {
      LargestKeyUnique(inputs, key, largest);
    }
  }

  lemma BoundaryExtends(levelFiles: seq<File>, inputs: seq<File>, largest: IKey, f: File)
    requires ValidFiles(levelFiles)
    requires forall g :: g in inputs ==> g in levelFiles
    requires IsLargest(inputs, largest)
    requires f in levelFiles && IsBoundaryFile(f, largest)
    requires forall g :: g in levelFiles && IsBoundaryFile(g, largest) ==> f.smallest.AtMost(g.smallest)
    ensures IsLargest(inputs + [f], f.largest)
    ensures |FilesAfter(levelFiles, f.largest)| < |FilesAfter(levelFiles, largest)|
    ensures !Isolated(levelFiles, inputs) && f !in inputs
  {
    FileRange(f);
    assert f in inputs + [f];
    assert f in FilesAfter(levelFiles, largest) && f !in FilesAfter(levelFiles, f.largest);
    SubsetSize(FilesAfter(levelFiles, f.largest), FilesAfter(levelFiles, largest));
    var h :| h in inputs && h.largest == largest;
    FileRange(h);
    assert f !in inputs;
  }

  lemma DistinctExtends(levelFiles: seq<File>, inputs: seq<File>, f: File)
    requires forall g :: g in inputs ==> g in levelFiles
    requires f in levelFiles && f !in inputs
    ensures DistinctNumbers(levelFiles) && DistinctNumbers(inputs) ==> DistinctNumbers(inputs + [f])
  {
    if DistinctNumbers(levelFiles) && DistinctNumbers(inputs) {
      forall i | 0 <= i < |inputs| ensures inputs[i].number != f.number {
        assert inputs[i] in inputs;
      }
    }
  }

  lemma LargestKeyUnique(files: seq<File>, k: IKey, k': IKey)
    requires IsLargest(files, k) && IsLargest(files, k')
    ensures k == k'
  {
    assert k.AtMost(k') && k'.AtMost(k);
  }

  lemma FollowsLast(files: seq<File>, b: nat, f: File)
    requires ValidFiles(files) && SortedDisjoint(files) && 0 < b <= |files|
    requires f in files && IsBoundaryFile(f, files[b - 1].largest)
    requires forall g :: g in files && IsBoundaryFile(g, files[b - 1].largest) ==> f.smallest.AtMost(g.smallest)
    ensures b < |files| && files[b] == f
  {
    var j :| 0 <= j < |files| && files[j] == f;
    FileRange(f);
    FileRange(files[b - 1]);
    assert j < b - 1 ==> Precedes(f, files[b - 1]);
    if j > b {
      FileRange(files[b]);
      assert Precedes(files[b], f) && Precedes(files[b - 1], files[b]);
      assert IsBoundaryFile(files[b], files[b - 1].largest);
    }
  }

  // ----- overlapping inputs are contiguous on sorted levels, isolated on level 0 -----

  lemma OverlappingStep(files: seq<File>, n: nat, begin: Option<UserKey>, end: Option<UserKey>)
    requires n < |files|
    ensures Overlapping(files[..n + 1], begin, end) ==
            Overlapping(files[..n], begin, end) + (if Overlaps(files[n], begin, end) then [files[n]] else [])
  {
    assert files[..n + 1][..n] == files[..n];
  }

  // Once a file lies behind the range, all later ones do.
  lemma NextOverlap(files: seq<File>, a: nat, b: nat, n: nat, begin: Option<UserKey>, end: Option<UserKey>)
    requires ValidFiles(files) && SortedDisjoint(files) && a < b <= n < |files| && Overlaps(files[a], begin, end)
    ensures b < n && BeforeFile(end, files[b]) ==> !Overlaps(files[n], begin, end)
    ensures b == n && !Overlaps(files[n], begin, end) ==> BeforeFile(end, files[n])
  {
    hide ValidFiles, SortedDisjoint;
    LaterFile(files, a, n);
    if b < n {
      LaterFile(files, b, n);
    }
  }

  lemma {:induction false} OverlappingContiguous(files: seq<File>, n: nat, begin: Option<UserKey>, end: Option<UserKey>) returns (a: nat, b: nat)
    requires ValidFiles(files) && SortedDisjoint(files) && n <= |files|
    ensures a <= b <= n && Overlapping(files[..n], begin, end) == files[a..b]
    ensures a < b ==> Overlaps(files[a], begin, end)
    ensures a < b < n ==> BeforeFile(end, files[b])
  {
    hide SortedDisjoint, ValidFiles, Overlapping, Overlaps, BeforeFile;
    if n == 0 {
      NoFilesOverlap(begin, end);
      assert files[..n] == [];
      a, b := 0, 0;
    } else {
      a, b := OverlappingContiguous(files, n - 1, begin, end);
      OverlappingStep(files, n - 1, begin, end);
      if a < b {
        NextOverlap(files, a, b, n - 1, begin, end);
      }
      if !Overlaps(files[n - 1], begin, end) {
        assert Overlapping(files[..n], begin, end) == files[a..b];
      } else if a == b {
        assert files[n - 1..n] == [files[n - 1]];
        a, b := n - 1, n;
      } else {
        assert files[a..n] == files[a..n - 1] + [files[n - 1]];
        b := n;
      }
    }
  }

  lemma NoFilesOverlap(begin: Option<UserKey>, end: Option<UserKey>)
    ensures Overlapping([], begin, end) == []
  {
  }

  lemma LaterFile(files: seq<File>, i: nat, j: nat)
    requires ValidFiles(files) && SortedDisjoint(files) && i < j < |files|
    ensures files[i].smallest.user <= files[j].smallest.user
    ensures files[i].largest.user <= files[j].largest.user
  {
    assert Precedes(files[i], files[j]);
    FileRange(files[i]);
    FileRange(files[j]);
  }

  lemma ClosedOverlapIsolated(files: seq<File>, begin: Option<UserKey>, end: Option<UserKey>)
    requires ValidFiles(files) && OverlapClosed(files, begin, end)
    ensures Isolated(files, Overlapping(files, begin, end))
  {
    forall f, g | f in Overlapping(files, begin, end) && g in files && g !in Overlapping(files, begin, end)
      ensures g.largest.user < f.smallest.user || f.largest.user < g.smallest.user
    {
      assert Within(f, begin, end);
      FileRange(f);
      FileRange(g);
    }
  }

  // ----- what the chosen inputs guarantee -----

  // On level 0 no left-out file shares a user key with the inputs; deeper down the inputs are
  // a run of neighbours that does not stop in the middle of a user key.
  ghost predicate VersionClosed(level: nat, files: seq<File>, inputs: seq<File>) {
    if level == 0 then Isolated(files, inputs) else Contiguous(files, inputs) && BoundaryClosed(files, inputs)
  }

  /** Moving the inputs down a level never moves a version below an older one of its key. */
  lemma LeftOutNewer(level: nat, files: seq<File>, inputs: seq<File>)
    requires ValidLevel(level, files) && inputs != []
    requires forall f :: f in inputs ==> f in files
    requires VersionClosed(level, files, inputs)
    ensures NewerAbove(EntriesOf(Without(files, inputs)), EntriesOf(inputs))
  {
    hide NumberedByAge, UniqueVersions, DistinctNumbers, BoundaryClosed, Contiguous, StrictlySorted;
    forall a, b | a in EntriesOf(Without(files, inputs)) && b in EntriesOf(inputs) && a.key.user == b.key.user
      ensures a.key.seqno > b.key.seqno
    {
      LeftOutEntryNewer(level, files, inputs, a, b);
    }
  }

  lemma LeftOutEntryNewer(level: nat, files: seq<File>, inputs: seq<File>, a: Entry, b: Entry)
    requires ValidLevel(level, files) && inputs != []
    requires forall f :: f in inputs ==> f in files
    requires VersionClosed(level, files, inputs)
    requires a in EntriesOf(Without(files, inputs)) && b in EntriesOf(inputs) && a.key.user == b.key.user
    ensures a.key.seqno > b.key.seqno
  {
    hide NumberedByAge, UniqueVersions, DistinctNumbers, BoundaryClosed, Contiguous, StrictlySorted, SortedDisjoint;
    var g :| g in Without(files, inputs) && a in g.entries;
    var f :| f in inputs && b in f.entries;
    EntryBounds(g, a);
    EntryBounds(f, b);
    if level > 0 {
      LeftOutFileNewer(files, inputs, f, g);
      assert a in EntriesOf(files) && b in EntriesOf(files);
      EarlierIsNewer(EntriesOf(files), a, b);
    }
  }

  lemma EarlierIsNewer(entries: set<Entry>, a: Entry, b: Entry)
    requires UniqueVersions(entries) && a in entries && b in entries
    requires a.key.user == b.key.user && a.key.Less(b.key)
    ensures a.key.seqno > b.key.seqno
  {
  }

  lemma LeftOutFileNewer(files: seq<File>, inputs: seq<File>, f: File, g: File)
    requires ValidFiles(files) && SortedDisjoint(files)
    requires Contiguous(files, inputs) && BoundaryClosed(files, inputs)
    requires f in inputs && g in files && g !in inputs
    requires g.smallest.user <= f.largest.user
    ensures Precedes(g, f)
  {
    hide SortedDisjoint, ValidFiles, IsLargest, Precedes, IsBoundaryFile;
    var a, b :| 0 <= a < b <= |files| && inputs == files[a..b];
    var i :| a <= i < b && files[i] == f;
    var j :| 0 <= j < |files| && files[j] == g;
    ContiguousLargest(files, a, b);
    assert !IsBoundaryFile(g, files[b - 1].largest);
    if a <= j < b {
      InSlice(files, a, b, j);
      assert false;
    }
    LeftOutBefore(files, a, b, i, j);
  }

  lemma LeftOutBefore(files: seq<File>, a: nat, b: nat, i: nat, j: nat)
    requires ValidFiles(files) && SortedDisjoint(files)
    requires a <= i < b <= |files| && j < |files| && !(a <= j < b)
    requires !IsBoundaryFile(files[j], files[b - 1].largest)
    requires files[j].smallest.user <= files[i].largest.user
    ensures Precedes(files[j], files[i])
  {
    if i < b - 1 {
      LaterFile(files, i, b - 1);
    }
    if j >= b {
      assert false;
    }
  }

  lemma InSlice(files: seq<File>, a: nat, b: nat, j: nat)
    requires a <= j < b <= |files|
    ensures files[j] in files[a..b]
  {
    assert files[a..b][j - a] == files[j];
  }

  lemma ContiguousLargest(files: seq<File>, a: nat, b: nat)
    requires ValidFiles(files) && SortedDisjoint(files) && a < b <= |files|
    ensures IsLargest(files[a..b], files[b - 1].largest)
  {
    InSlice(files, a, b, b - 1);
    forall f | f in files[a..b] ensures f.largest.AtMost(files[b - 1].largest) {
      var i :| a <= i < b && files[i] == f;
      FileRange(files[b - 1]);
      if i < b - 1 {
        assert Precedes(f, files[b - 1]);
      }
    }
  }

  // ----- SetupOtherInputs -----

  ghost predicate UserRange(files: seq<File>, low: UserKey, high: UserKey) {
    exists s, l :: IsSmallest(files, s) && IsLargest(files, l) && low == s.user && high == l.user
  }

  /** The inputs of a compaction out of level: closed under versions in the level itself, and in
      the next level exactly the files that overlap their user-key range. */
  ghost predicate GoodInputs(levels: Levels, level: nat, upper: seq<File>, lower: seq<File>)
    requires level + 1 < |levels|
  {
    && upper != [] && DistinctNumbers(upper)
    && (forall f :: f in upper ==> f in levels[level])
    && VersionClosed(level, levels[level], upper)
    && exists low, high :: UserRange(upper, low, high) && lower == Overlapping(levels[level + 1], Some(low), Some(high))
  }

  // The two shapes in which the pickers hand over the level files.
  ghost predicate GoodSeed(level: nat, files: seq<File>, inputs: seq<File>) {
    && inputs != [] && DistinctNumbers(inputs)
    && (forall f :: f in inputs ==> f in files)
    && (if level == 0 then Isolated(files, inputs) else Contiguous(files, inputs))
  }

  lemma {:induction false} TotalOfConcat(a: seq<File>, b: seq<File>)
    ensures TotalFileSize(a + b) == TotalFileSize(a) + TotalFileSize(b)
  {
    if a == [] {
      assert a + b == b;
    } else {
      assert (a + b)[1..] == a[1..] + b;
      TotalOfConcat(a[1..], b);
    }
  }

  // The files of a level that a range of user keys calls for.
  ghost predicate CalledFor(level: nat, files: seq<File>, begin: Option<UserKey>, end: Option<UserKey>, inputs: seq<File>) {
    if level > 0 then inputs == Overlapping(files, begin, end)
    else exists begin', end' :: LeastClosedRange(files, begin, end, begin', end') && inputs == Overlapping(files, begin', end')
  }

  ghost predicate CoversRange(files: seq<File>, inputs: seq<File>, overlap: seq<File>) {
    exists low, high :: UserRange(inputs, low, high) && overlap == Overlapping(files, Some(low), Some(high))
  }

  // The files that the range of the given ones calls for.
  ghost predicate CalledForBy(level: nat, files: seq<File>, inputs: seq<File>, called: seq<File>) {
    exists low, high :: UserRange(inputs, low, high) && CalledFor(level, files, Some(low), Some(high), called)
  }

  // The first choice with the files below it, what their common range calls for, the larger choice
  // that this gives, and the files below that.
  datatype Choice = Choice(first: seq<File>, below: seq<File>, called: seq<File>, expanded: seq<File>, expandedBelow: seq<File>)

  /** What SetupOtherInputs has to choose from these inputs: the first choice is their chain; the
      larger one is taken only if it brings more files of this level, none more of the next, and
      stays within the limit. */
  ghost predicate Chosen(levels: Levels, level: nat, inputs: seq<File>, sizeLimit: nat, c: Choice, upper: seq<File>, lower: seq<File>)
    requires level + 1 < |levels|
  {
    && Chain(levels[level], inputs, c.first) && CoversRange(levels[level + 1], c.first, c.below)
    && if c.below == [] then upper == c.first && lower == []
       else
         && CalledForBy(level, levels[level], c.first + c.below, c.called) && Chain(levels[level], c.called, c.expanded)
         && if |c.expanded| > |c.first| && TotalFileSize(c.below) + TotalFileSize(c.expanded) < sizeLimit then
              && CoversRange(levels[level + 1], c.expanded, c.expandedBelow)
              && if |c.expandedBelow| == |c.below| then upper == c.expanded && lower == c.expandedBelow
                 else upper == c.first && lower == c.below
            else upper == c.first && lower == c.below
  }

  /** SetupOtherInputs: boundary files, the overlap in the next level, and the attempt to take
      more of this level without taking more of the next. */
  method SetupOtherInputs(levels: Levels, level: nat, inputs: seq<File>, sizeLimit: nat)
    returns (upper: seq<File>, lower: seq<File>, ghost c: Choice)
    requires ValidLevels(levels) && level + 1 < NUM_LEVELS
    requires GoodSeed(level, levels[level], inputs)
    ensures GoodInputs(levels, level, upper, lower)
    ensures forall f :: f in inputs ==> f in upper
    ensures Chosen(levels, level, inputs, sizeLimit, c, upper, lower)
  {
    hide ValidLevel, NewerAbove;
    LevelShape(levels, level);
    LevelShape(levels, level + 1);
    hide ValidLevels, LeastClosedRange, UserRange, ValidFiles, SortedDisjoint, DistinctNumbers, VersionClosed, IsSmallest, IsLargest, Overlapping, TotalFileSize,
         Chain, CalledFor, CalledForBy, CoversRange, GoodInputs, GoodSeed;
    upper := FirstChoice(levels, level, inputs);
    var smallest, largest := GetRange(upper);
    var below, low, high := GetOverlappingInputs(level + 1, levels[level + 1], Some(smallest.user), Some(largest.user));
    lower := below;
    RangeCovered(levels[level + 1], upper, smallest, largest, lower);
    GoodInputsFrom(levels, level, upper, lower);
    c := Choice(upper, lower, [], [], []);
    if lower != [] {
      upper, lower, c := Grow(levels, level, upper, lower, sizeLimit);
    }
  }

  // The attempt to take more files of this level without taking more of the next.
  method Grow(levels: Levels, level: nat, first: seq<File>, below: seq<File>, sizeLimit: nat)
    returns (upper: seq<File>, lower: seq<File>, ghost c: Choice)
    requires ValidLevels(levels) && level + 1 < NUM_LEVELS && GoodInputs(levels, level, first, below) && below != []
    ensures c.first == first && c.below == below && GoodInputs(levels, level, upper, lower)
    ensures forall f :: f in first ==> f in upper
    ensures CalledForBy(level, levels[level], first + below, c.called) && Chain(levels[level], c.called, c.expanded)
    ensures if |c.expanded| > |first| && TotalFileSize(below) + TotalFileSize(c.expanded) < sizeLimit then
              && CoversRange(levels[level + 1], c.expanded, c.expandedBelow)
              && if |c.expandedBelow| == |below| then upper == c.expanded && lower == c.expandedBelow
                 else upper == first && lower == below
            else upper == first && lower == below
  {
    hide ValidLevel, NewerAbove, UserRange, Overlapping, VersionClosed;
    LevelShape(levels, level);
    LevelShape(levels, level + 1);
    assert forall f :: f in first ==> f in levels[level];
    hide ValidLevels, LeastClosedRange, ValidFiles, SortedDisjoint, DistinctNumbers, IsSmallest, IsLargest, TotalFileSize,
         Chain, CalledFor, CalledForBy, CoversRange, GoodInputs, Overlaps;
    upper, lower := first, below;
    var allStart, allLimit := GetRange(first + below);
    ghost var called;
    var expanded0;
    expanded0, called := Expand(levels, level, allStart.user, allLimit.user);
    RangeCalls(level, levels[level], first + below, allStart, allLimit, called);
    c := Choice(first, below, called, expanded0, []);
    if |expanded0| > |first| && TotalFileSize(below) + TotalFileSize(expanded0) < sizeLimit {
      var newStart, newLimit := GetRange(expanded0);
      var expanded1, low, high := GetOverlappingInputs(level + 1, levels[level + 1], Some(newStart.user), Some(newLimit.user));
      RangeCovered(levels[level + 1], expanded0, newStart, newLimit, expanded1);
      c := c.(expandedBelow := expanded1);
      if |expanded1| == |below| {
        GoodInputsFrom(levels, level, expanded0, expanded1);
        forall f | f in first ensures f in expanded0 {
          InRange(levels[level], first + below, allStart, allLimit, f);
        }
        upper, lower := expanded0, expanded1;
      }
    }
  }

  method FirstChoice(levels: Levels, level: nat, inputs: seq<File>) returns (first: seq<File>)
    requires level < |levels| && ValidFiles(levels[level]) && DistinctNumbers(levels[level]) && (level > 0 ==> SortedDisjoint(levels[level]))
    requires GoodSeed(level, levels[level], inputs)
    ensures Chain(levels[level], inputs, first) && forall f :: f in inputs ==> f in first
    ensures first != [] && VersionClosed(level, levels[level], first) && DistinctNumbers(first) && forall f :: f in first ==> f in levels[level]
  {
    hide Isolated, Contiguous, BoundaryClosed, DistinctNumbers, SortedDisjoint, ValidFiles;
    first := AddBoundaryInputs(levels[level], inputs);
    ChainContains(levels[level], inputs, first);
  }

  lemma RangeCovered(files: seq<File>, inputs: seq<File>, smallest: IKey, largest: IKey, overlap: seq<File>)
    requires IsSmallest(inputs, smallest) && IsLargest(inputs, largest)
    requires overlap == Overlapping(files, Some(smallest.user), Some(largest.user))
    ensures CoversRange(files, inputs, overlap)
  {
    hide IsSmallest, IsLargest, Overlapping;
    assert UserRange(inputs, smallest.user, largest.user);
  }

  lemma RangeCalls(level: nat, files: seq<File>, inputs: seq<File>, smallest: IKey, largest: IKey, called: seq<File>)
    requires IsSmallest(inputs, smallest) && IsLargest(inputs, largest)
    requires CalledFor(level, files, Some(smallest.user), Some(largest.user), called)
    ensures CalledForBy(level, files, inputs, called)
  {
    hide IsSmallest, IsLargest, CalledFor;
    assert UserRange(inputs, smallest.user, largest.user);
  }

  lemma GoodInputsFrom(levels: Levels, level: nat, upper: seq<File>, lower: seq<File>)
    requires level + 1 < |levels| && upper != [] && DistinctNumbers(upper) && VersionClosed(level, levels[level], upper)
    requires (forall f :: f in upper ==> f in levels[level]) && CoversRange(levels[level + 1], upper, lower)
    ensures GoodInputs(levels, level, upper, lower)
  {
    hide UserRange, Overlapping, VersionClosed, DistinctNumbers;
  }

  lemma ChainContains(files: seq<File>, seed: seq<File>, r: seq<File>)
    requires Chain(files, seed, r)
    ensures forall f :: f in seed ==> f in r
  {
    assert forall i :: 0 <= i < |seed| ==> r[i] == seed[i];
  }

  lemma LevelShape(levels: Levels, level: nat)
    requires ValidLevels(levels) && level < NUM_LEVELS
    ensures ValidLevel(level, levels[level])
    ensures ValidFiles(levels[level]) && DistinctNumbers(levels[level]) && (level > 0 ==> SortedDisjoint(levels[level]))
  {
  }

  lemma InRange(files: seq<File>, inputs: seq<File>, smallest: IKey, largest: IKey, f: File)
    requires ValidFiles(files) && f in files && f in inputs && IsSmallest(inputs, smallest) && IsLargest(inputs, largest)
    ensures Overlaps(f, Some(smallest.user), Some(largest.user))
  {
    FileRange(f);
  }

  method Expand(levels: Levels, level: nat, low: UserKey, high: UserKey) returns (expanded: seq<File>, ghost called: seq<File>)
    requires level < |levels| && ValidLevel(level, levels[level])
    ensures forall f :: f in expanded ==> f in levels[level]
    ensures forall f :: f in levels[level] && Overlaps(f, Some(low), Some(high)) ==> f in expanded
    ensures expanded != [] ==> VersionClosed(level, levels[level], expanded) && DistinctNumbers(expanded)
    ensures CalledFor(level, levels[level], Some(low), Some(high), called) && Chain(levels[level], called, expanded)
  {
    hide NumberedByAge, UniqueVersions, NewerAbove, ValidFiles, SortedDisjoint, DistinctNumbers, Isolated, Contiguous, BoundaryClosed, CalledFor;
    var overlapping := OverlapSeed(levels, level, Some(low), Some(high));
    hide Overlaps;
    called := overlapping;
    expanded := AddBoundaryInputs(levels[level], overlapping);
  }

  // Widening an empty selection does not happen.
  lemma SomeOverlap(level: nat, files: seq<File>, inputs: seq<File>, begin: Option<UserKey>, end: Option<UserKey>,
                    begin': Option<UserKey>, end': Option<UserKey>)
    requires inputs == Overlapping(files, begin', end')
    requires if level == 0 then LeastClosedRange(files, begin, end, begin', end') else begin' == begin && end' == end
    ensures inputs != [] ==> exists f :: f in files && Overlaps(f, begin, end)
  {
    if inputs != [] && forall f :: f in files ==> !Overlaps(f, begin, end) {
      assert OverlapClosed(files, begin, end);
      assert Overlaps(inputs[0], begin', end') && Overlaps(inputs[0], begin, end);
    }
  }

  /** What GetOverlappingInputs hands to the rest of the picking. */
  method OverlapSeed(levels: Levels, level: nat, begin: Option<UserKey>, end: Option<UserKey>) returns (inputs: seq<File>)
    requires level < |levels| && ValidLevel(level, levels[level])
    ensures inputs != [] ==> GoodSeed(level, levels[level], inputs)
    ensures forall f :: f in levels[level] && Overlaps(f, begin, end) ==> f in inputs
    ensures inputs != [] ==> exists f :: f in levels[level] && Overlaps(f, begin, end)
    ensures forall f :: f in inputs ==> f in levels[level]
    ensures CalledFor(level, levels[level], begin, end, inputs)
  {
    ghost var begin', end';
    inputs, begin', end' := GetOverlappingInputs(level, levels[level], begin, end);
    OverlappingDistinct(levels[level], begin', end');
    SomeOverlap(level, levels[level], inputs, begin, end, begin', end');
    if level == 0 {
      ClosedOverlapIsolated(levels[level], begin', end');
    } else {
      var files := levels[level];
      assert files[..|files|] == files;
      var a, b := OverlappingContiguous(files, |files|, begin, end);
    }
  }

  // What PickCompaction starts from: below level 0 the file alone.
  ghost predicate Seeded(level: nat, files: seq<File>, f: File, inputs: seq<File>) {
    if level > 0 then inputs == [f] else CalledFor(0, files, Some(f.smallest.user), Some(f.largest.user), inputs)
  }

  /** PickCompaction from the file that the scores or the seek counts point at. */
  method PickCompaction(levels: Levels, level: nat, f: File, sizeLimit: nat)
    returns (upper: seq<File>, lower: seq<File>, ghost inputs: seq<File>, ghost c: Choice)
    requires ValidLevels(levels) && level + 1 < NUM_LEVELS
    requires f in levels[level]
    ensures GoodInputs(levels, level, upper, lower) && f in upper
    ensures Seeded(level, levels[level], f, inputs) && Chosen(levels, level, inputs, sizeLimit, c, upper, lower)
  {
    hide NewerAbove, NumberedByAge, UniqueVersions, Chosen, CalledFor;
    var start := [f];
    LevelShape(levels, level);
    if level == 0 {
      var smallest, largest := GetRange(start);
      start := OverlapSeed(levels, 0, Some(smallest.user), Some(largest.user));
      FileRange(f);
      assert f in start;
    } else {
      var i :| 0 <= i < |levels[level]| && levels[level][i] == f;
      assert [f] == levels[level][i..i + 1];
    }
    inputs := start;
    upper, lower, c := SetupOtherInputs(levels, level, start, sizeLimit);
  }

  /** Below level 0 the first choice is the picked file and the neighbours that go on with the user
      key at which it, or the last of them, ends: the least run with the file that is closed. */
  lemma FirstIsLeast(levels: Levels, level: nat, i: nat, sizeLimit: nat, c: Choice, upper: seq<File>, lower: seq<File>) returns (e: nat)
    requires ValidLevels(levels) && 0 < level && level + 1 < NUM_LEVELS && i < |levels[level]|
    requires Chosen(levels, level, [levels[level][i]], sizeLimit, c, upper, lower)
    ensures i < e <= |levels[level]| && c.first == levels[level][i..e]
    ensures forall j :: i < j < e ==> levels[level][j - 1].largest.user == levels[level][j].smallest.user
    ensures e < |levels[level]| ==> levels[level][e - 1].largest.user < levels[level][e].smallest.user
    ensures forall x, y :: 0 <= x <= i < y <= |levels[level]| && VersionClosed(level, levels[level], levels[level][x..y]) ==>
              forall f :: f in c.first ==> f in levels[level][x..y]
  {
    hide BoundaryClosed, IsLargest, Chain, NewerAbove, UniqueVersions, ListSorted;
    LevelShape(levels, level);
    var files := levels[level];
    hide ValidLevels, ValidLevel;
    assert [files[i]] == files[i..i + 1];
    e := ChainIsRun(files, i, i + 1, c.first);
    forall x, y | 0 <= x <= i < y <= |files| && VersionClosed(level, files, files[x..y])
      ensures forall f :: f in c.first ==> f in files[x..y]
    {
      assert e <= y;
      forall f | f in c.first ensures f in files[x..y] {
        var k :| 0 <= k < |c.first| && c.first[k] == f;
        assert files[x..y][i + k - x] == f;
      }
    }
  }

  // The shortest part from the start of the files that reaches the limit, or all of them.
  ghost predicate CutToSize(files: seq<File>, limit: nat, cut: seq<File>) {
    && cut <= files
    && (cut == files || TotalFileSize(cut) >= limit)
    && forall n :: 0 < n < |cut| ==> TotalFileSize(files[..n]) < limit
  }

  /** CompactRange: the files of a level in a range, below level 0 cut off after maxSize bytes. */
  method CompactRange(levels: Levels, level: nat, begin: Option<UserKey>, end: Option<UserKey>, maxSize: nat, sizeLimit: nat)
    returns (upper: seq<File>, lower: seq<File>, ghost called: seq<File>, ghost inputs: seq<File>, ghost c: Choice)
    requires ValidLevels(levels) && level + 1 < NUM_LEVELS
    ensures upper != [] ==> GoodInputs(levels, level, upper, lower)
    ensures upper == [] <==> forall f :: f in levels[level] ==> !Overlaps(f, begin, end)
    ensures level == 0 ==> forall f :: f in levels[0] && Overlaps(f, begin, end) ==> f in upper
    ensures CalledFor(level, levels[level], begin, end, called)
    ensures if level == 0 then inputs == called else CutToSize(called, maxSize, inputs)
    ensures upper != [] ==> Chosen(levels, level, inputs, sizeLimit, c, upper, lower)
  {
    hide NewerAbove, NumberedByAge, UniqueVersions, DistinctNumbers, Chosen, CalledFor;
    LevelShape(levels, level);
    var start := OverlapSeed(levels, level, begin, end);
    called, inputs, c := start, start, Choice([], [], [], [], []);
    if start == [] {
      upper, lower := [], [];
      return;
    }
    if level > 0 {
      start := CutSize(start, maxSize);
      inputs := start;
      PrefixContiguous(levels[level], called, |start|);
    }
    upper, lower, c := SetupOtherInputs(levels, level, start, sizeLimit);
  }

  method CutSize(inputs: seq<File>, maxSize: nat) returns (cut: seq<File>)
    requires inputs != []
    ensures CutToSize(inputs, maxSize, cut) && cut == inputs[..|cut|] && cut != []
  {
    hide TotalFileSize;
    cut := inputs;
    var total := 0;
    var i := 0;
    NoSize();
    assert inputs[..0] == [];
    while i < |inputs|
      invariant 0 <= i <= |inputs| && cut == inputs && total == TotalFileSize(inputs[..i])
      invariant forall n :: 0 < n <= i ==> TotalFileSize(inputs[..n]) < maxSize
    {
      SizeOfOneMore(inputs, i);
      total := total + inputs[i].size;
      if total >= maxSize {
        cut := inputs[..i + 1];
        assert forall n :: 0 < n < |cut| ==> cut[..n] == inputs[..n];
        break;
      }
      i := i + 1;
    }
  }

  lemma NoSize()
    ensures TotalFileSize([]) == 0
  {
  }

  lemma SizeOfOneMore(files: seq<File>, i: nat)
    requires i < |files|
    ensures TotalFileSize(files[..i + 1]) == TotalFileSize(files[..i]) + files[i].size
  {
    TotalOfConcat(files[..i], [files[i]]);
    assert files[..i + 1] == files[..i] + [files[i]];
    assert [files[i]][1..] == [];
  }

  lemma PrefixContiguous(files: seq<File>, inputs: seq<File>, n: nat)
    requires Contiguous(files, inputs) && DistinctNumbers(inputs) && 0 < n <= |inputs|
    ensures Contiguous(files, inputs[..n]) && DistinctNumbers(inputs[..n])
  {
    var a, b :| 0 <= a < b <= |files| && inputs == files[a..b];
    assert inputs[..n] == files[a..a + n];
  }
}
