/** What holds in every run of the store. */
module LsmTheorems {
  import opened DbFormat
  import opened Files
  import opened Version
  import opened VersionBuilder
  import opened Compaction
  import opened CompactionInputs
  import opened LevelMoves
  import opened DropRules
  import opened Edits
  import opened Picked
  import opened Lsm
  import opened LsmInvariant

  lemma StepKeepsInv(s: State, s': State, a: Action)
    requires Inv(s) && Step(s, s', a) && Clear(s, a)
    ensures Inv(s')
  {
    hide Inv, Write, SwitchMemTable, Flush, TrivialMove, BeginCompaction, FinishCompaction, TakeSnapshot, ReleaseSnapshot;
    match a {
      case DoWrite(batch) => WriteKeepsInv(s, s', batch);
      case DoSwitch => SwitchKeepsInv(s, s');
      case DoFlush(level, files) => FlushKeepsInv(s, s', level, files);
      case DoMove(level, f) => MoveKeepsInv(s, s', level, f);
      case DoBegin(r) => BeginKeepsInv(s, s', r);
      case DoFinish => FinishKeepsInv(s, s');
      case DoSnapshot => TakeSnapshotKeepsInv(s, s');
      case DoRelease(i) => ReleaseSnapshotKeepsInv(s, s', i);
    }
  }

  /** Installing a compaction keeps the reads at every snapshot from its smallest one on, exactly
      when it resurrects nothing. */
  lemma FinishKeepsReadsIff(s: State, s': State)
    requires Inv(s) && FinishCompaction(s, s')
    ensures SameReads(AllEntries(s), AllEntries(s'), s.running.value.smallestSnapshot) <==> NoResurrection(s)
  {
    hide VersionInv, MemInv, UniqueVersions, OnlyHiddenBelow, SameReads, NothingResurfaces, AllEntries, ApplyEdit, AfterDrops;
    FinishKeepsInv(s, s');
    LevelCount(s);
    var r := s.running.value;
    DropsPreserveReadsIff(AllEntries(s), InputEntries(r.upper, r.lower), LeftOut(s.levels, r), r.inputVersion, r.level, r.smallestSnapshot);
  }

  lemma NewerEntriesInvisible(entries: set<Entry>, later: set<Entry>, user: UserKey, snapshot: nat)
    requires UniqueVersions(entries + later)
    requires forall e :: e in later ==> e.key.seqno > snapshot
    ensures Read(entries + later, user, snapshot) == Read(entries, user, snapshot)
  {
    ReadDependsOnCandidates(entries + later, entries, user, snapshot);
  }

  /** No step changes what a snapshot in use sees. */
  lemma StepKeepsReads(s: State, s': State, a: Action, user: UserKey, t: nat)
    requires Inv(s) && Step(s, s', a) && Safe(s, a)
    requires SmallestSnapshot(s) <= t <= s.lastSequence
    ensures Read(AllEntries(s'), user, t) == Read(AllEntries(s), user, t)
  {
    hide VersionInv, RunningInv, MemInv, SnapshotInv, Read, UniqueVersions, EntriesFrom, GoodInputs, ApplyEdit,
         NothingResurfaces, AsSet, NewerAbove, GoodOutputs, BatchEntries, InsertBatch;
    match a {
      case DoWrite(batch) =>
        WriteKeepsInv(s, s', batch);
        AllUnique(s');
        BatchSequences(batch, s.lastSequence + 1);
        NewerEntriesInvisible(AllEntries(s), BatchEntries(batch, s.lastSequence + 1), user, t);
      case DoSwitch => SwitchKeepsInv(s, s');
      case DoFlush(level, files) => FlushKeepsInv(s, s', level, files);
      case DoMove(level, f) => MoveKeepsInv(s, s', level, f);
      case DoBegin(r) => BeginKeepsInv(s, s', r);
      case DoFinish => FinishKeepsReadsIff(s, s');
      case DoSnapshot =>
      case DoRelease(i) =>
    }
  }

  // ----- what a write does to the newest view -----

  function OpOutcome(op: Op): Option<Bytes> {
    match op
    case Put(_, v) => Some(v)
    case Delete(_) => None
  }

  // The last operation on a key decides.
  function BatchOutcome(batch: seq<Op>, user: UserKey, before: Option<Bytes>): Option<Bytes> {
    if batch == [] then before
    else if batch[|batch| - 1].key == user then OpOutcome(batch[|batch| - 1])
    else BatchOutcome(batch[..|batch| - 1], user, before)
  }

  lemma {:induction false} ReadAfterBatch(entries: set<Entry>, batch: seq<Op>, last: nat, user: UserKey)
    requires UniqueVersions(entries) && SequencesAtMost(entries, last)
    ensures UniqueVersions(entries + BatchEntries(batch, last + 1))
    ensures SequencesAtMost(entries + BatchEntries(batch, last + 1), last + |batch|)
    ensures Read(entries + BatchEntries(batch, last + 1), user, last + |batch|) ==
            BatchOutcome(batch, user, Read(entries, user, last))
  {
    hide Read, UniqueVersions, SequencesAtMost;
    if batch == [] {
      assert entries + BatchEntries(batch, last + 1) == entries;
    } else {
      var init := batch[..|batch| - 1];
      ReadAfterBatch(entries, init, last, user);
      var before := entries + BatchEntries(init, last + 1);
      var e := OpEntry(batch[|batch| - 1], last + |batch|);
      assert entries + BatchEntries(batch, last + 1) == before + {e};
      ReadAfterOne(before, e, user);
    }
  }

  lemma ReadAfterOne(entries: set<Entry>, e: Entry, user: UserKey)
    requires UniqueVersions(entries) && e.key.seqno > 0 && SequencesAtMost(entries, e.key.seqno - 1)
    ensures UniqueVersions(entries + {e}) && SequencesAtMost(entries + {e}, e.key.seqno)
    ensures Read(entries + {e}, user, e.key.seqno) ==
            if e.key.user == user then Meaning(e) else Read(entries, user, e.key.seqno - 1)
  {
    if e.key.user == user {
      assert IsNewest(entries + {e}, user, e.key.seqno, e);
      ReadOfNewest(entries + {e}, user, e.key.seqno, e);
    } else {
      ReadDependsOnCandidates(entries + {e}, entries, user, e.key.seqno);
      SameUpTo(entries, user, e.key.seqno - 1, e.key.seqno);
    }
  }

  // ----- runs -----

  // A run starts in an empty store or in any other state of which the invariant holds.
  ghost predicate Run(states: seq<State>, actions: seq<Action>) {
    && |states| == |actions| + 1
    && Inv(states[0])
    && forall i :: 0 <= i < |actions| ==> Step(states[i], states[i + 1], actions[i])
  }

  ghost predicate ClearRun(states: seq<State>, actions: seq<Action>) {
    Run(states, actions) && forall i :: 0 <= i < |actions| ==> Clear(states[i], actions[i])
  }

  ghost predicate SafeRun(states: seq<State>, actions: seq<Action>) {
    Run(states, actions) && forall i :: 0 <= i < |actions| ==> Safe(states[i], actions[i])
  }

  lemma InitInv(s: State)
    requires Init(s)
    ensures Inv(s)
    ensures AllEntries(s) == {}
  {
    forall i, e | 0 <= i <= NUM_LEVELS ensures e !in EntriesFrom(s.levels, i) {
      InEntriesFrom(s.levels, i, e);
    }
    assert EntriesFrom(s.levels, 0) == {};
    assert s.levels == Replay([]);
  }

  /** In every run whose mid-compaction flushes stay clear of the running compaction, the store
      invariant holds throughout. */
  lemma {:induction false} RunKeepsInv(states: seq<State>, actions: seq<Action>, n: nat)
    requires ClearRun(states, actions) && n < |states|
    ensures Inv(states[n])
  {
    hide Inv, Step;
    if n > 0 {
      RunKeepsInv(states, actions, n - 1);
      StepKeepsInv(states[n - 1], states[n], actions[n - 1]);
    }
  }

  lemma SafeIsClear(states: seq<State>, actions: seq<Action>)
    requires SafeRun(states, actions)
    ensures ClearRun(states, actions)
  {
    hide Inv, Step, NoResurrection, ClearOfRunning;
    forall i | 0 <= i < |actions| ensures Clear(states[i], actions[i]) {
      assert Safe(states[i], actions[i]);
    }
  }

  /** The manifest written in a run replays to the levels the run has reached. */
  lemma RecoveryRebuildsLevels(states: seq<State>, actions: seq<Action>, n: nat)
    requires ClearRun(states, actions) && n < |states|
    ensures states[n].levels == Replay(states[n].manifest)
  {
    RunKeepsInv(states, actions, n);
  }

  lemma SnapshotBounds(s: State, t: nat)
    requires Inv(s) && t in s.snapshots
    ensures SmallestSnapshot(s) <= t <= s.lastSequence
  {
    hide VersionInv, RunningInv, MemInv;
    var i :| 0 <= i < |s.snapshots| && s.snapshots[i] == t;
    assert s.snapshots[0] <= s.snapshots[i];
  }

  lemma LatestBounds(s: State)
    requires Inv(s)
    ensures SmallestSnapshot(s) <= s.lastSequence
  {
  }

  /** A snapshot reads the same for as long as it is held, whatever is written, flushed, moved
      or compacted meanwhile. */
  lemma {:induction false} SnapshotReadsNeverChange(states: seq<State>, actions: seq<Action>, i: nat, j: nat, user: UserKey, t: nat)
    requires SafeRun(states, actions) && i <= j < |states|
    requires forall k :: i <= k <= j ==> t in states[k].snapshots
    ensures |states[i].levels| == |states[j].levels| == NUM_LEVELS
    ensures Read(AllEntries(states[j]), user, t) == Read(AllEntries(states[i]), user, t)
    decreases j
  {
    hide Inv, Step, Read, AllEntries, Safe;
    SafeIsClear(states, actions);
    RunKeepsInv(states, actions, i);
    LevelCount(states[i]);
    if i < j {
      SnapshotReadsNeverChange(states, actions, i, j - 1, user, t);
      RunKeepsInv(states, actions, j - 1);
      RunKeepsInv(states, actions, j);
      LevelCount(states[j]);
      SnapshotBounds(states[j - 1], t);
      StepKeepsReads(states[j - 1], states[j], actions[j - 1], user, t);
    }
  }

  // The abstract store: a map from keys to values that only writes change.
  function View(start: Option<Bytes>, actions: seq<Action>, user: UserKey): Option<Bytes> {
    if actions == [] then start
    else
      var before := View(start, actions[..|actions| - 1], user);
      match actions[|actions| - 1]
      case DoWrite(batch) => BatchOutcome(batch, user, before)
      case _ => before
  }

  // What a read at the last sequence number returns.
  ghost function Latest(s: State, user: UserKey): Option<Bytes>
    requires |s.levels| == NUM_LEVELS
  {
    Read(AllEntries(s), user, s.lastSequence)
  }

  /** The store refines a map: reading at the last sequence number gives what the writes so far
      have left under the key, on top of what was there at the start. */
  lemma {:induction false} LatestReadIsView(states: seq<State>, actions: seq<Action>, n: nat, user: UserKey)
    requires SafeRun(states, actions) && n < |states|
    ensures |states[0].levels| == |states[n].levels| == NUM_LEVELS
    ensures Latest(states[n], user) == View(Latest(states[0], user), actions[..n], user)
  {
    hide Inv, Step, Read, AllEntries, Safe, BatchOutcome, SmallestSnapshot;
    SafeIsClear(states, actions);
    RunKeepsInv(states, actions, n);
    RunKeepsInv(states, actions, 0);
    LevelCount(states[n]);
    LevelCount(states[0]);
    if n > 0 {
      var s, s', a := states[n - 1], states[n], actions[n - 1];
      RunKeepsInv(states, actions, n - 1);
      LatestReadIsView(states, actions, n - 1, user);
      assert actions[..n][..n - 1] == actions[..n - 1];
      if a.DoWrite? {
        WriteChangesView(s, s', a.batch, user);
      } else {
        LatestBounds(s);
        StepKeepsReads(s, s', a, user, s.lastSequence);
        OnlyWritesCount(s, s', a);
      }
    }
  }

  lemma EmptyStore(s: State, user: UserKey)
    requires Init(s)
    ensures Inv(s) && Latest(s, user) == None
  {
    InitInv(s);
  }

  lemma OnlyWritesCount(s: State, s': State, a: Action)
    requires Step(s, s', a) && !a.DoWrite?
    ensures s'.lastSequence == s.lastSequence
  {
    hide ApplyEdit, GoodInputs, GoodOutputs;
  }

  lemma WriteChangesView(s: State, s': State, batch: seq<Op>, user: UserKey)
    requires Inv(s) && Step(s, s', DoWrite(batch))
    ensures Read(AllEntries(s'), user, s'.lastSequence) == BatchOutcome(batch, user, Read(AllEntries(s), user, s.lastSequence))
  {
    hide Inv, Read, AllEntries, BatchEntries, BatchOutcome, UniqueVersions, SequencesAtMost, InsertBatch;
    AllUnique(s);
    WriteKeepsInv(s, s', batch);
    ReadAfterBatch(AllEntries(s), batch, s.lastSequence, user);
  }

  /** A snapshot taken after n steps keeps returning the view of that moment. */
  lemma SnapshotIsOldView(states: seq<State>, actions: seq<Action>, n: nat, j: nat, user: UserKey)
    requires SafeRun(states, actions) && n < j < |states| && actions[n] == DoSnapshot
    requires forall k :: n < k <= j ==> states[n].lastSequence in states[k].snapshots
    ensures |states[0].levels| == |states[j].levels| == NUM_LEVELS
    ensures Read(AllEntries(states[j]), user, states[n].lastSequence) == View(Latest(states[0], user), actions[..n], user)
  {
    hide Inv, Read, AllEntries, Safe, View;
    LatestReadIsView(states, actions, n, user);
    LatestReadIsView(states, actions, n + 1, user);
    assert Step(states[n], states[n + 1], actions[n]);
    SnapshotReadsNeverChange(states, actions, n + 1, j, user, states[n].lastSequence);
    SafeIsClear(states, actions);
    RunKeepsInv(states, actions, n);
    LatestBounds(states[n]);
    StepKeepsReads(states[n], states[n + 1], actions[n], user, states[n].lastSequence) by {
      assert Safe(states[n], actions[n]);
    }
  }
}
