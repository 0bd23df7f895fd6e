/** The searches that a version runs over its file lists. */
module VersionSearch {
  import opened DbFormat
  import opened Files

  /** The smallest index whose largest key is at or after the given key. */
  method FindFile(files: seq<File>, key: IKey) returns (index: nat)
    requires ValidFiles(files) && SortedDisjoint(files)
    ensures index <= |files|
    ensures forall i :: 0 <= i < index ==> files[i].largest.Less(key)
    ensures forall i :: index <= i < |files| ==> key.AtMost(files[i].largest)
  {
    var left, right := 0, |files|;
    while left < right
      invariant 0 <= left <= right <= |files|
      invariant forall i :: 0 <= i < left ==> files[i].largest.Less(key)
      invariant forall i :: right <= i < |files| ==> key.AtMost(files[i].largest)
    {
      var mid := (left + right) / 2;
      FileRange(files[mid]);
      if files[mid].largest.Less(key) {
        forall i | 0 <= i < mid ensures files[i].largest.Less(key) {
          assert Precedes(files[i], files[mid]);
        }
        left := mid + 1;
      } else {
        forall i | mid < i < |files| ensures key.AtMost(files[i].largest) {
          assert Precedes(files[mid], files[i]);
          FileRange(files[i]);
        }
        right := mid;
      }
    }
    index := right;
  }

  /** The fast search over a sorted level and the scan over level 0 decide the same question. */
  method SomeFileOverlapsRange(disjointSortedFiles: bool, files: seq<File>,
                               begin: Option<UserKey>, end: Option<UserKey>) returns (r: bool)
    requires ValidFiles(files)
    requires disjointSortedFiles ==> SortedDisjoint(files)
    ensures r <==> exists f :: f in files && Overlaps(f, begin, end)
  {
    if !disjointSortedFiles {
      for i := 0 to |files|
        invariant forall j :: 0 <= j < i ==> !Overlaps(files[j], begin, end)
      {
        if AfterFile(begin, files[i]) || BeforeFile(end, files[i]) {
        } else {
          assert files[i] in files;
          return true;
        }
      }
      return false;
    }
    var index := 0;
    if begin.Some? {
      index := FindFile(files, LookupKey(begin.value, MAX_SEQUENCE));
      FirstAtOrAfterUser(files, begin.value, index);
    }
    if index >= |files| {
      return false;
    }
    r := !BeforeFile(end, files[index]);
    forall i | index < i < |files| ensures files[index].smallest.user <= files[i].smallest.user {
      assert Precedes(files[index], files[i]);
      FileRange(files[index]);
    }
    if r {
      assert Overlaps(files[index], begin, end);
    }
  }

  // Searching for the earliest internal key of a user key splits a level by user key.
  lemma FirstAtOrAfterUser(files: seq<File>, user: UserKey, index: nat)
    requires ValidFiles(files) && index <= |files|
    requires forall i :: 0 <= i < index ==> files[i].largest.Less(LookupKey(user, MAX_SEQUENCE))
    requires forall i :: index <= i < |files| ==> LookupKey(user, MAX_SEQUENCE).AtMost(files[i].largest)
    ensures forall i :: 0 <= i < index ==> files[i].largest.user < user
    ensures forall i :: index <= i < |files| ==> user <= files[i].largest.user
  {
    forall i | 0 <= i < |files| ensures files[i].largest.seqno <= MAX_SEQUENCE {
      assert files[i].Valid();
      assert files[i].entries[|files[i].entries| - 1] in files[i].entries;
    }
  }

  // The files that can still widen the range; every restart removes one of them.
  ghost function StartsBelow(files: seq<File>, begin: Option<UserKey>): set<File> {
    set f | f in files && begin.Some? && f.smallest.user < begin.value
  }

  ghost function LimitsAbove(files: seq<File>, end: Option<UserKey>): set<File> {
    set f | f in files && end.Some? && f.largest.user > end.value
  }

  ghost function Widenings(files: seq<File>, begin: Option<UserKey>, end: Option<UserKey>): nat {
    |StartsBelow(files, begin)| + |LimitsAbove(files, end)|
  }

  lemma RestartShrinks(files: seq<File>, begin: Option<UserKey>, end: Option<UserKey>, f: File)
    requires f in files
    ensures begin.Some? && f.smallest.user < begin.value ==>
              Widenings(files, Some(f.smallest.user), end) < Widenings(files, begin, end)
    ensures end.Some? && f.largest.user > end.value ==>
              Widenings(files, begin, Some(f.largest.user)) < Widenings(files, begin, end)
  {
    if begin.Some? && f.smallest.user < begin.value {
      assert f in StartsBelow(files, begin) && f !in StartsBelow(files, Some(f.smallest.user));
      SubsetSize(StartsBelow(files, Some(f.smallest.user)), StartsBelow(files, begin));
    }
    if end.Some? && f.largest.user > end.value {
      assert f in LimitsAbove(files, end) && f !in LimitsAbove(files, Some(f.largest.user));
      SubsetSize(LimitsAbove(files, Some(f.largest.user)), LimitsAbove(files, end));
    }
  }

  // Every overlap-closed range that contains begin .. end contains begin' .. end'.
  ghost predicate Forced(files: seq<File>, begin: Option<UserKey>, end: Option<UserKey>,
                         begin': Option<UserKey>, end': Option<UserKey>) {
    forall b, e :: Widens(begin, end, b, e) && OverlapClosed(files, b, e) ==> Widens(begin', end', b, e)
  }

  ghost predicate LeastClosedRange(files: seq<File>, begin: Option<UserKey>, end: Option<UserKey>,
                                   begin': Option<UserKey>, end': Option<UserKey>) {
    && Widens(begin, end, begin', end')
    && OverlapClosed(files, begin', end')
    && Forced(files, begin, end, begin', end')
  }

  // A file that overlaps a forced range forces the range that also contains the file.
  lemma WideningIsForced(files: seq<File>, begin: Option<UserKey>, end: Option<UserKey>,
                         userBegin: Option<UserKey>, userEnd: Option<UserKey>, f: File)
    requires f in files && Overlaps(f, userBegin, userEnd)
    requires Forced(files, begin, end, userBegin, userEnd)
    ensures userBegin.Some? && f.smallest.user < userBegin.value ==>
              Forced(files, begin, end, Some(f.smallest.user), userEnd)
    ensures userEnd.Some? && f.largest.user > userEnd.value ==>
              Forced(files, begin, end, userBegin, Some(f.largest.user))
  {
  }

  /** Level 0 restarts whenever a file it picks sticks out of the range; it stops with the
      least overlap-closed range.  On the other levels the range stays as given. */
  method GetOverlappingInputs(level: nat, files: seq<File>, begin: Option<UserKey>, end: Option<UserKey>)
    returns (inputs: seq<File>, ghost begin': Option<UserKey>, ghost end': Option<UserKey>)
    ensures inputs == Overlapping(files, begin', end')
    ensures level > 0 ==> inputs == Overlapping(files, begin, end)
    ensures level > 0 ==> begin' == begin && end' == end
    ensures level == 0 ==> LeastClosedRange(files, begin, end, begin', end')
  {
    inputs := [];
    var userBegin, userEnd := begin, end;
    var i := 0;
    while i < |files|
      invariant 0 <= i <= |files|
      invariant inputs == Overlapping(files[..i], userBegin, userEnd)
      invariant Widens(begin, end, userBegin, userEnd)
      invariant Forced(files, begin, end, userBegin, userEnd)
      invariant level > 0 ==> userBegin == begin && userEnd == end
      invariant level == 0 ==> OverlapClosed(files[..i], userBegin, userEnd)
      decreases Widenings(files, userBegin, userEnd), |files| - i
    {
      var f := files[i];
      assert files[..i + 1] == files[..i] + [f];
      i := i + 1;
      if AfterFile(userBegin, f) {
      } else if BeforeFile(userEnd, f) {
      } else {
        inputs := inputs + [f];
        if level == 0 {
          RestartShrinks(files, userBegin, userEnd, f);
          WideningIsForced(files, begin, end, userBegin, userEnd, f);
          if userBegin.Some? && f.smallest.user < userBegin.value {
            userBegin := Some(f.smallest.user);
            inputs := [];
            i := 0;
          } else if userEnd.Some? && f.largest.user > userEnd.value {
            userEnd := Some(f.largest.user);
            inputs := [];
            i := 0;
          }
        }
      }
    }
    assert files[..i] == files;
    begin', end' := userBegin, userEnd;
  }
}
