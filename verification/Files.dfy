/** Table files and the lists of them that make up a level. */
module Files {
  import opened DbFormat

  // FileMetaData together with the contents of the table it describes.
  datatype File = File(number: nat, size: nat, smallest: IKey, largest: IKey, entries: seq<Entry>) {
    ghost predicate Valid() {
      && |entries| > 0
      && StrictlySorted(entries)
      && smallest == entries[0].key
      && largest == entries[|entries| - 1].key
      && forall e :: e in entries ==> e.key.seqno <= MAX_SEQUENCE
    }
  }

  ghost predicate ValidFiles(files: seq<File>) {
    forall f :: f in files ==> f.Valid()
  }

  ghost predicate Precedes(f: File, g: File) {
    f.largest.Less(g.smallest)
  }

  // The shape of every level below level 0: sorted, and disjoint as ranges of internal keys.
  // A user key may still straddle two neighbouring files.
  ghost predicate SortedDisjoint(files: seq<File>) {
    forall i, j :: 0 <= i < j < |files| ==> Precedes(files[i], files[j])
  }

  ghost function EntriesOf(files: seq<File>): set<Entry> {
    set f, e | f in files && e in f.entries :: e
  }

  lemma EntriesOfConcat(a: seq<File>, b: seq<File>)
    ensures EntriesOf(a + b) == EntriesOf(a) + EntriesOf(b)
  {
    assert forall f :: f in a + b <==> f in a || f in b;
  }

  lemma EntriesOfOne(f: File)
    ensures EntriesOf([f]) == AsSet(f.entries)
  {
    assert f in [f];
    assert forall e :: e in f.entries ==> e in EntriesOf([f]);
  }

  // The files of a list that are not among the chosen ones.
  function Without(files: seq<File>, chosen: seq<File>): (rest: seq<File>)
    ensures forall f :: f in rest <==> f in files && f !in chosen
  {
    if files == [] then []
    else if files[|files| - 1] in chosen then Without(files[..|files| - 1], chosen)
    else Without(files[..|files| - 1], chosen) + [files[|files| - 1]]
  }

  lemma EntryBounds(f: File, e: Entry)
    requires f.Valid() && e in f.entries
    ensures f.smallest.AtMost(e.key) && e.key.AtMost(f.largest)
    ensures f.smallest.user <= e.key.user <= f.largest.user
  {
    var i :| 0 <= i < |f.entries| && f.entries[i] == e;
    assert i > 0 ==> f.entries[0].key.Less(f.entries[i].key);
    assert i < |f.entries| - 1 ==> f.entries[i].key.Less(f.entries[|f.entries| - 1].key);
  }

  lemma FileRange(f: File)
    requires f.Valid()
    ensures f.smallest.AtMost(f.largest)
    ensures f.smallest.user <= f.largest.user
  {
    EntryBounds(f, f.entries[0]);
  }

  // BySmallestKey: by smallest key, ties by file number.
  predicate FileLess(f: File, g: File) {
    f.smallest.Less(g.smallest) || (f.smallest == g.smallest && f.number < g.number)
  }

  // Equivalent files cannot both be in a std::set ordered by FileLess.
  predicate SameFile(f: File, g: File) {
    f.smallest == g.smallest && f.number == g.number
  }

  ghost predicate ListSorted(files: seq<File>) {
    forall i, j :: 0 <= i < j < |files| ==> FileLess(files[i], files[j])
  }

  // ----- user-key ranges -----

  // A missing bound is an infinite one.
  predicate AfterFile(user: Option<UserKey>, f: File) {
    user.Some? && user.value > f.largest.user
  }

  predicate BeforeFile(user: Option<UserKey>, f: File) {
    user.Some? && user.value < f.smallest.user
  }

  predicate Overlaps(f: File, begin: Option<UserKey>, end: Option<UserKey>) {
    !AfterFile(begin, f) && !BeforeFile(end, f)
  }

  ghost predicate CoversUser(f: File, user: UserKey) {
    f.smallest.user <= user <= f.largest.user
  }

  // The files of a list that overlap a range, in list order.
  function Overlapping(files: seq<File>, begin: Option<UserKey>, end: Option<UserKey>): (r: seq<File>)
    ensures forall f :: f in r <==> f in files && Overlaps(f, begin, end)
  {
    if files == [] then []
    else
      var last := files[|files| - 1];
      Overlapping(files[..|files| - 1], begin, end) + (if Overlaps(last, begin, end) then [last] else [])
  }

  // begin' .. end' contains begin .. end
  ghost predicate Widens(begin: Option<UserKey>, end: Option<UserKey>,
                         begin': Option<UserKey>, end': Option<UserKey>) {
    && begin.None? == begin'.None? && (begin.Some? ==> begin'.value <= begin.value)
    && end.None? == end'.None? && (end.Some? ==> end.value <= end'.value)
  }

  ghost predicate Within(f: File, begin: Option<UserKey>, end: Option<UserKey>) {
    && (begin.Some? ==> begin.value <= f.smallest.user)
    && (end.Some? ==> f.largest.user <= end.value)
  }

  // Nothing overlaps the range without lying inside it.
  ghost predicate OverlapClosed(files: seq<File>, begin: Option<UserKey>, end: Option<UserKey>) {
    forall f :: f in files && Overlaps(f, begin, end) ==> Within(f, begin, end)
  }
}
