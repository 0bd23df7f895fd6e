/** What dropping entries does to reads. */
module DropRules {
  import opened DbFormat
  import opened Files
  import opened Version
  import opened Compaction

  // The database after a compaction with the given inputs, as a set of entries.
  ghost function AfterDrops(all: set<Entry>, inputs: set<Entry>, levels: Levels, level: nat, snapshot: nat): set<Entry> {
    set e | e in all && !(e in inputs && Dropped(levels, level, inputs, e, snapshot))
  }

  // Apart from the left-out files of the next level, what is not an input is newer than the
  // inputs, unless the base-level check has seen its key.
  ghost predicate OnlyHiddenBelow(all: set<Entry>, inputs: set<Entry>, leftOut: set<Entry>, levels: Levels, level: nat) {
    && inputs <= all && leftOut <= all && inputs !! leftOut
    && forall d, e :: d in all && d !in inputs && d !in leftOut && e in inputs && d.key.user == e.key.user ==>
                        d.key.seqno > e.key.seqno || !BaseLevel(levels, level, e.key.user)
  }

  /** No deletion marker that rule (B) drops is all that hides a value in a left-out file of
      the next level. */
  ghost predicate NothingResurfaces(all: set<Entry>, inputs: set<Entry>, leftOut: set<Entry>,
                                    levels: Levels, level: nat, snapshot: nat) {
    forall e :: e in inputs && Obsolete(levels, level, e, snapshot) && !Hidden(all, e, snapshot) ==>
                  Read(leftOut, e.key.user, e.key.seqno) == None
  }

  ghost predicate SameReads(a: set<Entry>, b: set<Entry>, snapshot: nat) {
    forall user, s :: s >= snapshot ==> Read(a, user, s) == Read(b, user, s)
  }

  /** The drop rules keep every read at every snapshot that can still be taken, exactly when
      nothing resurfaces. */
  lemma DropsPreserveReadsIff(all: set<Entry>, inputs: set<Entry>, leftOut: set<Entry>, levels: Levels, level: nat, snapshot: nat)
    requires UniqueVersions(all)
    requires OnlyHiddenBelow(all, inputs, leftOut, levels, level)
    ensures SameReads(all, AfterDrops(all, inputs, levels, level, snapshot), snapshot) <==>
            NothingResurfaces(all, inputs, leftOut, levels, level, snapshot)
  {
    var after := AfterDrops(all, inputs, levels, level, snapshot);
    if NothingResurfaces(all, inputs, leftOut, levels, level, snapshot) {
      forall user, s | s >= snapshot ensures Read(all, user, s) == Read(after, user, s) {
        ReadKept(all, inputs, leftOut, levels, level, snapshot, user, s);
      }
    } else {
      var e :| e in inputs && Obsolete(levels, level, e, snapshot) && !Hidden(all, e, snapshot) &&
               Read(leftOut, e.key.user, e.key.seqno) != None;
      ReadLost(all, inputs, leftOut, levels, level, snapshot, e);
    }
  }

  lemma ReadKept(all: set<Entry>, inputs: set<Entry>, leftOut: set<Entry>, levels: Levels, level: nat, snapshot: nat,
                 user: UserKey, s: nat)
    requires UniqueVersions(all) && s >= snapshot
    requires OnlyHiddenBelow(all, inputs, leftOut, levels, level)
    requires NothingResurfaces(all, inputs, leftOut, levels, level, snapshot)
    ensures Read(all, user, s) == Read(AfterDrops(all, inputs, levels, level, snapshot), user, s)
  {
    var after := AfterDrops(all, inputs, levels, level, snapshot);
    SubsetUnique(after, all);
    if NoCandidate(all, user, s) {
      ReadDependsOnCandidates(all, after, user, s);
      return;
    }
    var e := NewestExists(all, user, s);
    ReadOfNewest(all, user, s, e);
    if e in after {
      ReadOfNewest(after, user, s, e);
    } else {
      assert Obsolete(levels, level, e, snapshot);
      SurvivorsAreLeftOut(all, inputs, leftOut, levels, level, snapshot, e, s);
      SubsetUnique(leftOut, all);
      ReadDependsOnCandidates(after, leftOut, user, e.key.seqno);
      SameUpTo(after, user, e.key.seqno, s);
    }
  }

  // Once the newest version is a dropped marker, everything visible is in the left-out files.
  lemma SurvivorsAreLeftOut(all: set<Entry>, inputs: set<Entry>, leftOut: set<Entry>, levels: Levels, level: nat, snapshot: nat,
                            e: Entry, s: nat)
    requires UniqueVersions(all) && s >= snapshot
    requires OnlyHiddenBelow(all, inputs, leftOut, levels, level)
    requires e in inputs && Obsolete(levels, level, e, snapshot) && IsNewest(all, e.key.user, s, e)
    ensures forall d :: d in AfterDrops(all, inputs, levels, level, snapshot) && Candidate(d, e.key.user, s) ==>
                          d in leftOut && d.key.seqno <= e.key.seqno
    ensures forall d :: d in leftOut ==> d in AfterDrops(all, inputs, levels, level, snapshot)
  {
    forall d | d in AfterDrops(all, inputs, levels, level, snapshot) && Candidate(d, e.key.user, s)
      ensures d in leftOut && d.key.seqno <= e.key.seqno
    {
      if d in inputs {
        assert false;
      }
    }
  }

  lemma SameUpTo(entries: set<Entry>, user: UserKey, low: nat, high: nat)
    requires UniqueVersions(entries) && low <= high
    requires forall d :: d in entries && Candidate(d, user, high) ==> d.key.seqno <= low
    ensures Read(entries, user, low) == Read(entries, user, high)
  {
    if NoCandidate(entries, user, high) {
      assert NoCandidate(entries, user, low);
    } else {
      var e := NewestExists(entries, user, high);
      ReadOfNewest(entries, user, high, e);
      assert IsNewest(entries, user, low, e);
      ReadOfNewest(entries, user, low, e);
    }
  }

  lemma ReadLost(all: set<Entry>, inputs: set<Entry>, leftOut: set<Entry>, levels: Levels, level: nat, snapshot: nat, e: Entry)
    requires UniqueVersions(all)
    requires OnlyHiddenBelow(all, inputs, leftOut, levels, level)
    requires e in inputs && Obsolete(levels, level, e, snapshot) && !Hidden(all, e, snapshot)
    requires Read(leftOut, e.key.user, e.key.seqno) != None
    ensures Read(all, e.key.user, snapshot) != Read(AfterDrops(all, inputs, levels, level, snapshot), e.key.user, snapshot)
  {
    var after := AfterDrops(all, inputs, levels, level, snapshot);
    SubsetUnique(after, all);
    SubsetUnique(leftOut, all);
    assert IsNewest(all, e.key.user, snapshot, e);
    ReadOfNewest(all, e.key.user, snapshot, e);
    SurvivorsAreLeftOut(all, inputs, leftOut, levels, level, snapshot, e, snapshot);
    ReadDependsOnCandidates(after, leftOut, e.key.user, e.key.seqno);
    SameUpTo(after, e.key.user, e.key.seqno, snapshot);
  }

  /** Closing the inputs of the next level under versions as well is enough. */
  lemma NewerLeftOutSuffices(all: set<Entry>, inputs: set<Entry>, leftOut: set<Entry>, levels: Levels, level: nat, snapshot: nat)
    requires NewerAbove(leftOut, inputs)
    ensures NothingResurfaces(all, inputs, leftOut, levels, level, snapshot)
  {
    forall e | e in inputs ensures Read(leftOut, e.key.user, e.key.seqno) == None {
      assert NoCandidate(leftOut, e.key.user, e.key.seqno);
    }
  }
}
