/** The compaction loop: which entries it drops, and how it cuts the rest into files. */
module Compaction {
  import opened DbFormat
  import opened Files
  import opened Version

  // No file two or more levels below the compacted level can hold the key.
  ghost predicate BaseLevel(levels: Levels, level: nat, user: UserKey) {
    forall l, f :: level + 2 <= l < |levels| && f in levels[l] ==> !CoversUser(f, user)
  }

  ghost predicate UserSorted(files: seq<File>) {
    && (forall f :: f in files ==> f.smallest.user <= f.largest.user)
    && forall i, j :: 0 <= i < j < |files| ==> files[i].largest.user <= files[j].smallest.user
  }

  class Compaction {
    const level: nat
    const inputVersion: Levels
    var levelPtrs: seq<nat>
    ghost var lastUser: Option<UserKey>

    ghost predicate Valid()
      reads this
    {
      && |inputVersion| == |levelPtrs| == NUM_LEVELS
      && forall l :: level + 2 <= l < NUM_LEVELS ==>
           && UserSorted(inputVersion[l])
           && levelPtrs[l] <= |inputVersion[l]|
           && forall i :: 0 <= i < levelPtrs[l] ==> lastUser.Some? && inputVersion[l][i].largest.user < lastUser.value
    }

    constructor (level: nat, inputVersion: Levels)
      requires |inputVersion| == NUM_LEVELS
      requires forall l :: level + 2 <= l < NUM_LEVELS ==> UserSorted(inputVersion[l])
      ensures Valid() && this.level == level && this.inputVersion == inputVersion && lastUser == None
    {
      this.level := level;
      this.inputVersion := inputVersion;
      levelPtrs := seq(NUM_LEVELS, _ => 0);
      lastUser := None;
    }

    /** The pointers only move forward, yet over nondecreasing keys every answer is the
        stateless one. */
    method IsBaseLevelForKey(user: UserKey) returns (r: bool)
      requires Valid()
      requires lastUser.Some? ==> lastUser.value <= user
      modifies this`levelPtrs, this`lastUser
      ensures Valid() && lastUser == Some(user)
      ensures r <==> BaseLevel(inputVersion, level, user)
    {
      lastUser := Some(user);
      var lvl := level + 2;
      while lvl < NUM_LEVELS
        invariant level + 2 <= lvl
        invariant Valid() && lastUser == Some(user)
        invariant forall l, f :: level + 2 <= l < lvl && l < NUM_LEVELS && f in inputVersion[l] ==> !CoversUser(f, user)
      {
        var files := inputVersion[lvl];
        while levelPtrs[lvl] < |files|
          invariant Valid() && lastUser == Some(user)
          decreases |files| - levelPtrs[lvl]
        {
          var f := files[levelPtrs[lvl]];
          if user <= f.largest.user {
            if user >= f.smallest.user {
              assert f in inputVersion[lvl] && CoversUser(f, user);
              return false;
            }
            break;
          }
          levelPtrs := levelPtrs[lvl := levelPtrs[lvl] + 1];
        }
        PassedLevel(files, levelPtrs[lvl], user);
        lvl := lvl + 1;
      }
      r := true;
    }
  }

  lemma PassedLevel(files: seq<File>, ptr: nat, user: UserKey)
    requires UserSorted(files) && ptr <= |files|
    requires forall i :: 0 <= i < ptr ==> files[i].largest.user < user
    requires ptr < |files| ==> user < files[ptr].smallest.user
    ensures forall f :: f in files ==> !CoversUser(f, user)
  {
    forall f | f in files ensures !CoversUser(f, user) {
      var i :| 0 <= i < |files| && files[i] == f;
      if i > ptr {
        assert files[ptr] in files && files[ptr].largest.user <= files[i].smallest.user;
      }
    }
  }

  // ----- the drop rules, stated on the set of inputs -----

  // Rule (A): a newer version of the same key is visible at every snapshot that can see e.
  ghost predicate Hidden(entries: set<Entry>, e: Entry, snapshot: nat) {
    exists d :: d in entries && d.key.user == e.key.user && e.key.seqno < d.key.seqno <= snapshot
  }

  // Rule (B): a deletion marker with nothing below it to delete.
  ghost predicate Obsolete(levels: Levels, level: nat, e: Entry, snapshot: nat) {
    e.key.kind.Deletion? && e.key.seqno <= snapshot && BaseLevel(levels, level, e.key.user)
  }

  ghost predicate Dropped(levels: Levels, level: nat, entries: set<Entry>, e: Entry, snapshot: nat) {
    Hidden(entries, e, snapshot) || Obsolete(levels, level, e, snapshot)
  }

  // The first n input entries without the dropped ones, in input order.
  ghost function Survivors(levels: Levels, level: nat, input: seq<Entry>, snapshot: nat, n: nat): (r: seq<Entry>)
    requires n <= |input|
    ensures forall e :: e in r <==> e in input[..n] && !Dropped(levels, level, AsSet(input), e, snapshot)
  {
    if n == 0 then []
    else
      var rest := Survivors(levels, level, input, snapshot, n - 1);
      assert input[..n] == input[..n - 1] + [input[n - 1]];
      rest + (if Dropped(levels, level, AsSet(input), input[n - 1], snapshot) then [] else [input[n - 1]])
  }

  lemma SurvivorsStep(levels: Levels, level: nat, input: seq<Entry>, snapshot: nat, n: nat)
    requires n < |input|
    ensures Survivors(levels, level, input, snapshot, n + 1) ==
            Survivors(levels, level, input, snapshot, n) +
            (if Dropped(levels, level, AsSet(input), input[n], snapshot) then [] else [input[n]])
  {
  }

  lemma NothingYet(levels: Levels, level: nat, input: seq<Entry>, snapshot: nat)
    ensures Survivors(levels, level, input, snapshot, 0) == Flatten([]) == []
  {
  }

  lemma {:induction false} SurvivorsSorted(levels: Levels, level: nat, input: seq<Entry>, snapshot: nat, n: nat)
    requires StrictlySorted(input) && n <= |input|
    ensures StrictlySorted(Survivors(levels, level, input, snapshot, n))
  {
    if n > 0 {
      SurvivorsSorted(levels, level, input, snapshot, n - 1);
      var rest := Survivors(levels, level, input, snapshot, n - 1);
      forall i | 0 <= i < |rest| ensures rest[i].key.Less(input[n - 1].key) {
        assert rest[i] in input[..n - 1];
      }
    }
  }

  /** What a compaction is for: nothing that a snapshot needs is left out, nothing that no
      snapshot needs is kept. */
  lemma SurvivorsAreNeeded(levels: Levels, level: nat, input: seq<Entry>, snapshot: nat, e: Entry)
    requires e in input
    ensures e in Survivors(levels, level, input, snapshot, |input|) <==>
            && (forall d :: d in input && d.key.user == e.key.user && d.key.seqno > e.key.seqno ==> d.key.seqno > snapshot)
            && (e.key.kind.Deletion? && e.key.seqno <= snapshot ==>
                  exists l, f :: level + 2 <= l < |levels| && f in levels[l] && f.smallest.user <= e.key.user <= f.largest.user)
  {
    assert input[..|input|] == input;
    var out := Survivors(levels, level, input, snapshot, |input|);
    assert e in out <==> !Dropped(levels, level, AsSet(input), e, snapshot);
    hide Survivors;
    if forall d :: d in input && d.key.user == e.key.user && d.key.seqno > e.key.seqno ==> d.key.seqno > snapshot {
      assert !Hidden(AsSet(input), e, snapshot);
      CoveredBelow(levels, level, e.key.user);
    } else {
      var d :| d in input && d.key.user == e.key.user && d.key.seqno > e.key.seqno && d.key.seqno <= snapshot;
      assert d in AsSet(input);
    }
  }

  ghost function Flatten(outputs: seq<seq<Entry>>): seq<Entry> {
    if outputs == [] then [] else Flatten(outputs[..|outputs| - 1]) + outputs[|outputs| - 1]
  }

  ghost predicate NonEmptyOutputs(outputs: seq<seq<Entry>>) {
    forall i :: 0 <= i < |outputs| ==> outputs[i] != []
  }

  lemma FlattenAppend(outputs: seq<seq<Entry>>, last: seq<Entry>)
    ensures Flatten(outputs + [last]) == Flatten(outputs) + last
  {
    assert (outputs + [last])[..|outputs|] == outputs;
  }

  // On sorted input the previous entry alone decides rule (A).
  lemma PreviousEntryDecides(input: seq<Entry>, i: nat, snapshot: nat)
    requires StrictlySorted(input) && UniqueVersions(AsSet(input)) && i < |input|
    ensures Hidden(AsSet(input), input[i], snapshot) <==>
            i > 0 && input[i - 1].key.user == input[i].key.user && input[i - 1].key.seqno <= snapshot
  {
    if i > 0 {
      assert input[i - 1].key.Less(input[i].key);
      assert input[i - 1] in AsSet(input) && input[i] in AsSet(input);
    }
    if Hidden(AsSet(input), input[i], snapshot) {
      var d :| d in AsSet(input) && d.key.user == input[i].key.user && input[i].key.seqno < d.key.seqno <= snapshot;
      var j :| 0 <= j < |input| && input[j] == d;
      assert j < i - 1 ==> input[j].key.Less(input[i - 1].key);
    }
  }

  // How the outputs are cut: none goes on behind the entry that made it big enough, and none is
  // closed for another reason than that or a stop.
  ghost predicate CutWell(outputs: seq<seq<Entry>>, builder: seq<Entry>, stopBefore: nat -> bool, bigEnough: seq<Entry> -> bool) {
    && (forall k, n :: 0 <= k < |outputs| && 0 < n < |outputs[k]| ==> !bigEnough(outputs[k][..n]))
    && (forall n :: 0 < n <= |builder| ==> !bigEnough(builder[..n]))
    && ((forall i :: !stopBefore(i)) ==> forall k :: 0 <= k < |outputs| ==> bigEnough(outputs[k]))
    && ((forall i :: stopBefore(i)) ==> (forall k :: 0 <= k < |outputs| ==> |outputs[k]| == 1) && |builder| <= 1)
  }

  lemma CutAtStop(outputs: seq<seq<Entry>>, builder: seq<Entry>, stopBefore: nat -> bool, bigEnough: seq<Entry> -> bool, i: nat)
    requires CutWell(outputs, builder, stopBefore, bigEnough) && builder != [] && stopBefore(i)
    ensures CutWell(outputs + [builder], [], stopBefore, bigEnough)
  {
  }

  lemma CutWhenBig(outputs: seq<seq<Entry>>, builder: seq<Entry>, e: Entry, stopBefore: nat -> bool, bigEnough: seq<Entry> -> bool)
    requires CutWell(outputs, builder, stopBefore, bigEnough) && ((forall i :: stopBefore(i)) ==> builder == [])
    ensures bigEnough(builder + [e]) ==> CutWell(outputs + [builder + [e]], [], stopBefore, bigEnough)
    ensures !bigEnough(builder + [e]) ==> CutWell(outputs, builder + [e], stopBefore, bigEnough)
  {
    var last := builder + [e];
    forall n | 0 < n < |last| ensures !bigEnough(last[..n]) {
      assert last[..n] == builder[..n];
    }
    assert last[..|last|] == last;
  }

  /** DoCompactionWork.  stopBefore and bigEnough stand for the two places that decide to close
      the current output; they are arbitrary. */
  method DoCompactionWork(c: Compaction, input: seq<Entry>, smallestSnapshot: nat,
                          stopBefore: nat -> bool, bigEnough: seq<Entry> -> bool)
    returns (outputs: seq<seq<Entry>>)
    requires c.Valid() && c.lastUser == None
    requires StrictlySorted(input) && UniqueVersions(AsSet(input))
    requires smallestSnapshot < MAX_SEQUENCE
    modifies c
    ensures StrictlySorted(Flatten(outputs)) && forall e :: e in Flatten(outputs) ==> e in input
    ensures forall e :: e in input ==>
              (e in Flatten(outputs) <==>
               && (forall d :: d in input && d.key.user == e.key.user && d.key.seqno > e.key.seqno ==> d.key.seqno > smallestSnapshot)
               && (e.key.kind.Deletion? && e.key.seqno <= smallestSnapshot ==>
                     exists l, f :: c.level + 2 <= l < |c.inputVersion| && f in c.inputVersion[l] && f.smallest.user <= e.key.user <= f.largest.user))
    ensures Flatten(outputs) == Survivors(c.inputVersion, c.level, input, smallestSnapshot, |input|)
    ensures NonEmptyOutputs(outputs)
    ensures forall k, n :: 0 <= k < |outputs| && 0 < n < |outputs[k]| ==> !bigEnough(outputs[k][..n])
    ensures (forall i :: !stopBefore(i)) ==> forall k :: 0 <= k < |outputs| - 1 ==> bigEnough(outputs[k])
    ensures (forall i :: stopBefore(i)) ==> forall k :: 0 <= k < |outputs| ==> |outputs[k]| == 1
  {
    CompactionResult(c.inputVersion, c.level, input, smallestSnapshot);
    hide StrictlySorted, UniqueVersions, AsSet, Survivors, Flatten, CutWell;
    outputs := RunCompaction(c, input, smallestSnapshot, stopBefore, bigEnough);
    CutsAre(outputs, stopBefore, bigEnough);
  }

  lemma CutsAre(outputs: seq<seq<Entry>>, stopBefore: nat -> bool, bigEnough: seq<Entry> -> bool)
    requires NonEmptyOutputs(outputs)
    requires outputs == [] || CutWell(outputs, [], stopBefore, bigEnough) ||
             CutWell(outputs[..|outputs| - 1], outputs[|outputs| - 1], stopBefore, bigEnough)
    ensures forall k, n :: 0 <= k < |outputs| && 0 < n < |outputs[k]| ==> !bigEnough(outputs[k][..n])
    ensures (forall i :: !stopBefore(i)) ==> forall k :: 0 <= k < |outputs| - 1 ==> bigEnough(outputs[k])
    ensures (forall i :: stopBefore(i)) ==> forall k :: 0 <= k < |outputs| ==> |outputs[k]| == 1
  {
    if outputs != [] && !CutWell(outputs, [], stopBefore, bigEnough) {
      var init, last := outputs[..|outputs| - 1], outputs[|outputs| - 1];
      forall k, n | 0 <= k < |outputs| && 0 < n < |outputs[k]| ensures !bigEnough(outputs[k][..n]) {
        assert if k < |init| then outputs[k] == init[k] else outputs[k] == last;
      }
      assert forall k :: 0 <= k < |init| ==> init[k] == outputs[k];
    }
  }

  lemma CoveredBelow(levels: Levels, level: nat, user: UserKey)
    ensures BaseLevel(levels, level, user) <==>
            !(exists l, f :: level + 2 <= l < |levels| && f in levels[l] && f.smallest.user <= user <= f.largest.user)
  {
    if !BaseLevel(levels, level, user) {
      var l, f :| level + 2 <= l < |levels| && f in levels[l] && CoversUser(f, user);
      assert f.smallest.user <= user <= f.largest.user;
    } else {
      forall l, f | level + 2 <= l < |levels| && f in levels[l] ensures !(f.smallest.user <= user <= f.largest.user) {
        assert !CoversUser(f, user);
      }
    }
  }

  lemma CompactionResult(levels: Levels, level: nat, input: seq<Entry>, snapshot: nat)
    requires StrictlySorted(input)
    ensures var output := Survivors(levels, level, input, snapshot, |input|);
            && StrictlySorted(output) && (forall e :: e in output ==> e in input)
            && forall e :: e in input ==>
                 (e in output <==>
                  && (forall d :: d in input && d.key.user == e.key.user && d.key.seqno > e.key.seqno ==> d.key.seqno > snapshot)
                  && (e.key.kind.Deletion? && e.key.seqno <= snapshot ==>
                        exists l, f :: level + 2 <= l < |levels| && f in levels[l] && f.smallest.user <= e.key.user <= f.largest.user))
  {
    SurvivorsSorted(levels, level, input, snapshot, |input|);
    assert input[..|input|] == input;
    var output := Survivors(levels, level, input, snapshot, |input|);
    assert forall e :: e in output ==> e in input;
    hide Survivors, StrictlySorted;
    forall e | e in input
      ensures e in output <==>
              && (forall d :: d in input && d.key.user == e.key.user && d.key.seqno > e.key.seqno ==> d.key.seqno > snapshot)
              && (e.key.kind.Deletion? && e.key.seqno <= snapshot ==>
                    exists l, f :: level + 2 <= l < |levels| && f in levels[l] && f.smallest.user <= e.key.user <= f.largest.user)
    {
      SurvivorsAreNeeded(levels, level, input, snapshot, e);
    }
  }

  method RunCompaction(c: Compaction, input: seq<Entry>, smallestSnapshot: nat,
                    stopBefore: nat -> bool, bigEnough: seq<Entry> -> bool)
    returns (outputs: seq<seq<Entry>>)
    requires c.Valid() && c.lastUser == None
    requires StrictlySorted(input) && UniqueVersions(AsSet(input))
    requires smallestSnapshot < MAX_SEQUENCE
    modifies c
    ensures Flatten(outputs) == Survivors(c.inputVersion, c.level, input, smallestSnapshot, |input|)
    ensures NonEmptyOutputs(outputs)
    ensures outputs == [] || CutWell(outputs, [], stopBefore, bigEnough) ||
            CutWell(outputs[..|outputs| - 1], outputs[|outputs| - 1], stopBefore, bigEnough)
  {
    hide StrictlySorted, UniqueVersions, BaseLevel, Hidden, AsSet, Survivors, Flatten, UserSorted, CutWell;
    NothingCut(stopBefore, bigEnough);
    NothingYet(c.inputVersion, c.level, input, smallestSnapshot);
    outputs := [];
    var builder: Option<seq<Entry>> := None;
    var currentUserKey: Option<UserKey> := None;
    var lastSequenceForKey := MAX_SEQUENCE;
    for i := 0 to |input|
      invariant c.Valid() && (c.lastUser.Some? ==> i > 0 && c.lastUser.value <= input[i - 1].key.user)
      invariant NonEmptyOutputs(outputs) && (builder.Some? ==> builder.value != [])
      invariant CutWell(outputs, if builder.Some? then builder.value else [], stopBefore, bigEnough)
      invariant Flatten(outputs) + (if builder.Some? then builder.value else []) ==
                Survivors(c.inputVersion, c.level, input, smallestSnapshot, i)
      invariant currentUserKey == if i > 0 then Some(input[i - 1].key.user) else None
      invariant i > 0 ==> lastSequenceForKey == input[i - 1].key.seqno
    {
      if stopBefore(i) && builder.Some? {
        CutAtStop(outputs, builder.value, stopBefore, bigEnough, i);
        FlattenAppend(outputs, builder.value);
        outputs, builder := outputs + [builder.value], None;
      }
      var ikey := input[i].key;
      var drop := false;
      PreviousEntryDecides(input, i, smallestSnapshot);
      SurvivorsStep(c.inputVersion, c.level, input, smallestSnapshot, i);
      UsersAscend(input, i);
      if currentUserKey.None? || ikey.user != currentUserKey.value {
        currentUserKey := Some(ikey.user);
        lastSequenceForKey := MAX_SEQUENCE;
      }
      if lastSequenceForKey <= smallestSnapshot {
        drop := true;
      } else if ikey.kind.Deletion? && ikey.seqno <= smallestSnapshot {
        drop := c.IsBaseLevelForKey(ikey.user);
      }
      lastSequenceForKey := ikey.seqno;
      if !drop {
        if builder.None? {
          builder := Some([]);
        }
        CutWhenBig(outputs, builder.value, input[i], stopBefore, bigEnough);
        builder := Some(builder.value + [input[i]]);
        if bigEnough(builder.value) {
          FlattenAppend(outputs, builder.value);
          outputs, builder := outputs + [builder.value], None;
        }
      }
    }
    if builder.Some? {
      FlattenAppend(outputs, builder.value);
      assert (outputs + [builder.value])[..|outputs|] == outputs;
      outputs := outputs + [builder.value];
    }
  }

  lemma NothingCut(stopBefore: nat -> bool, bigEnough: seq<Entry> -> bool)
    ensures CutWell([], [], stopBefore, bigEnough)
  {
  }

  lemma UsersAscend(input: seq<Entry>, i: nat)
    requires StrictlySorted(input) && i < |input|
    ensures i > 0 ==> input[i - 1].key.user <= input[i].key.user
  {
    if i > 0 {
      assert input[i - 1].key.Less(input[i].key);
    }
  }
}
