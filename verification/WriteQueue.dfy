/** The queue of concurrent writers: the writer at the front commits a group of them at once. */
module WriteQueue {
  import opened DbFormat
  import opened Lsm

  datatype Status = Ok | Failed

  // A write batch and the size of its representation.
  datatype Batch = Batch(ops: seq<Op>, bytes: nat)

  // A call of Write that waits in the queue.  No batch asks for the memtable to be compacted.
  datatype Writer = Writer(id: nat, batch: Option<Batch>, sync: bool)

  // One record of the log: a batch and the sequence number of its first operation.
  datatype Record = Record(first: nat, ops: seq<Op>)

  // ----- choosing the group -----

  const MAX_GROUP_BYTES: nat := 0x10_0000
  const SMALL_WRITE_BYTES: nat := 0x2_0000

  function BatchOps(w: Writer): seq<Op> {
    if w.batch.Some? then w.batch.value.ops else []
  }

  function BatchBytes(w: Writer): nat {
    if w.batch.Some? then w.batch.value.bytes else 0
  }

  // The operations of the writers' batches, in queue order.
  function OpsOf(writers: seq<Writer>): seq<Op> {
    if writers == [] then [] else OpsOf(writers[..|writers| - 1]) + BatchOps(writers[|writers| - 1])
  }

  function BytesOf(writers: seq<Writer>): nat {
    if writers == [] then 0 else BytesOf(writers[..|writers| - 1]) + BatchBytes(writers[|writers| - 1])
  }

  function MaxBytes(first: Writer): nat {
    if BatchBytes(first) <= SMALL_WRITE_BYTES then BatchBytes(first) + SMALL_WRITE_BYTES else MAX_GROUP_BYTES
  }

  // The writer at i may not join the group of those before it.
  predicate StopsAt(queue: seq<Writer>, i: nat)
    requires 0 < i < |queue|
  {
    || (queue[i].sync && !queue[0].sync)
    || (queue[i].batch.Some? && BytesOf(queue[..i]) + BatchBytes(queue[i]) > MaxBytes(queue[0]))
  }

  // The group is the longest front of the queue that nothing stops.
  ghost predicate IsGroup(queue: seq<Writer>, n: nat) {
    && 0 < n <= |queue|
    && (forall i :: 0 < i < n ==> !StopsAt(queue, i))
    && (n < |queue| ==> StopsAt(queue, n))
  }

  /** A group led by a write that is not synced has no synced write, and no group outgrows the
      limit unless its first batch alone does. */
  lemma {:induction false} GroupLimits(queue: seq<Writer>, n: nat)
    requires 0 < n <= |queue| && forall i :: 0 < i < n ==> !StopsAt(queue, i)
    ensures !queue[0].sync ==> forall i :: 0 <= i < n ==> !queue[i].sync
    ensures BytesOf(queue[..n]) <= MaxBytes(queue[0]) || BytesOf(queue[..n]) == BatchBytes(queue[0])
  {
    assert queue[..n][..n - 1] == queue[..n - 1];
    if n > 1 {
      GroupLimits(queue, n - 1);
      assert !StopsAt(queue, n - 1);
    } else {
      assert BytesOf(queue[..0]) == 0;
    }
  }

  lemma FrontOne(queue: seq<Writer>)
    requires queue != []
    ensures OpsOf(queue[..1]) == BatchOps(queue[0]) && BytesOf(queue[..1]) == BatchBytes(queue[0])
  {
    FrontStep(queue, 0);
    assert queue[..0] == [] && OpsOf([]) == [] && BytesOf([]) == 0;
  }

  lemma FrontStep(queue: seq<Writer>, i: nat)
    requires i < |queue|
    ensures OpsOf(queue[..i + 1]) == OpsOf(queue[..i]) + BatchOps(queue[i])
    ensures BytesOf(queue[..i + 1]) == BytesOf(queue[..i]) + BatchBytes(queue[i])
  {
    assert queue[..i + 1][..i] == queue[..i];
  }

  lemma {:induction false} BytesGrow(queue: seq<Writer>, i: nat, j: nat)
    requires i <= j <= |queue|
    ensures BytesOf(queue[..i]) <= BytesOf(queue[..j])
  {
    if i < j {
      BytesGrow(queue, i, j - 1);
      FrontStep(queue, j - 1);
    }
  }

  /** Small writes that wait together go together: if the first m writers have at most 128 KB in
      all and none asks for a sync that the first does not ask for, all of them are in the group. */
  lemma SmallWritesJoin(queue: seq<Writer>, n: nat, m: nat)
    requires IsGroup(queue, n) && 0 < m <= |queue| && BytesOf(queue[..m]) <= 131072
    requires queue[0].sync || forall i :: 0 <= i < m ==> !queue[i].sync
    ensures n >= m
  {
    if n < m {
      FrontStep(queue, n);
      BytesGrow(queue, n + 1, m);
    }
  }

  /** What decides a group: a write that asks for a sync does not join one that does not; batches
      join while the bytes stay at most 1 MB, or 128 KB more than the first batch where that one
      has at most 128 KB; and nothing else ends a group. */
  lemma GroupMeans(queue: seq<Writer>, n: nat)
    requires queue != [] && queue[0].batch.Some?
    ensures var first := queue[0].batch.value.bytes;
            var limit := if first <= 131072 then first + 131072 else 1048576;
            IsGroup(queue, n) <==>
              && 0 < n <= |queue|
              && (forall i :: 0 < i < n && queue[i].sync ==> queue[0].sync)
              && (forall i :: 0 < i < n && queue[i].batch.Some? ==> BytesOf(queue[..i + 1]) <= limit)
              && (n < |queue| ==>
                    || (queue[n].sync && !queue[0].sync)
                    || (queue[n].batch.Some? && BytesOf(queue[..n + 1]) > limit))
  {
    forall i | 0 < i < |queue|
      ensures StopsAt(queue, i) <==>
        || (queue[i].sync && !queue[0].sync)
        || (queue[i].batch.Some? && BytesOf(queue[..i + 1]) > MaxBytes(queue[0]))
    {
      FrontStep(queue, i);
    }
    hide BytesOf, StopsAt;
  }

  // ----- groups that have been committed -----

  datatype Group = Group(writers: seq<Writer>, ops: seq<Op>, first: nat, logged: bool, status: Status)

  function Numbered(ops: seq<Op>, first: nat): seq<Entry> {
    seq(|ops|, i requires 0 <= i < |ops| => OpEntry(ops[i], first + i))
  }

  function Members(groups: seq<Group>): seq<Writer> {
    if groups == [] then [] else Members(groups[..|groups| - 1]) + groups[|groups| - 1].writers
  }

  function TotalOps(groups: seq<Group>): nat {
    if groups == [] then 0 else TotalOps(groups[..|groups| - 1]) + |groups[|groups| - 1].ops|
  }

  function GroupRecords(g: Group): seq<Record> {
    if g.logged then [Record(g.first, g.ops)] else []
  }

  function GroupEntries(g: Group): seq<Entry> {
    if g.status.Ok? then Numbered(g.ops, g.first) else []
  }

  function Records(groups: seq<Group>): seq<Record> {
    if groups == [] then [] else Records(groups[..|groups| - 1]) + GroupRecords(groups[|groups| - 1])
  }

  function Entries(groups: seq<Group>): seq<Entry> {
    if groups == [] then [] else Entries(groups[..|groups| - 1]) + GroupEntries(groups[|groups| - 1])
  }

  // ----- the state machine -----

  datatype Stage = ToLog | ToSync | ToInsert | ToFinish

  // The leader at work without the mutex.  last names the last writer of its group.
  datatype Work = Work(count: nat, last: nat, ops: seq<Op>, first: nat, stage: Stage, logged: bool, status: Status)

  datatype QueueState = QueueState(
    queue: seq<Writer>, work: Option<Work>, log: seq<Record>, synced: nat, inserted: seq<Entry>,
    lastSequence: nat, results: map<nat, Status>, broken: bool, ghost arrived: seq<Writer>, ghost groups: seq<Group>)

  ghost predicate Init(s: QueueState) {
    s == QueueState([], None, [], 0, [], 0, map[], false, [], [])
  }

  ghost predicate Enqueue(s: QueueState, s': QueueState, w: Writer) {
    && (forall v :: v in s.arrived ==> v.id != w.id)
    && s' == s.(queue := s.queue + [w], arrived := s.arrived + [w])
  }

  // The front writer makes room, which fails after a background error and may fail otherwise,
  // and forms its group.
  ghost predicate Lead(s: QueueState, s': QueueState, roomFails: bool) {
    && s.work.None? && s.queue != []
    && var front := s.queue[0];
       if s.broken || roomFails then
         s' == s.(work := Some(Work(1, front.id, [], s.lastSequence + 1, ToFinish, false, Failed)))
       else if front.batch.None? then
         s' == s.(work := Some(Work(1, front.id, [], s.lastSequence + 1, ToFinish, false, Ok)))
       else
         exists n: nat :: IsGroup(s.queue, n) &&
           s' == s.(work := Some(Work(n, s.queue[n - 1].id, OpsOf(s.queue[..n]), s.lastSequence + 1, ToLog, false, Ok)))
  }

  ghost predicate LogRecord(s: QueueState, s': QueueState, fails: bool) {
    && s.work.Some? && s.work.value.stage.ToLog? && s.queue != []
    && var w := s.work.value;
       s' == if fails then s.(work := Some(w.(stage := ToFinish, status := Failed)))
             else s.(log := s.log + [Record(w.first, w.ops)],
                     work := Some(w.(stage := if s.queue[0].sync then ToSync else ToInsert, logged := true)))
  }

  // After a failed sync every later write fails.
  ghost predicate SyncLog(s: QueueState, s': QueueState, fails: bool) {
    && s.work.Some? && s.work.value.stage.ToSync?
    && var w := s.work.value;
       s' == if fails then s.(broken := true, work := Some(w.(stage := ToFinish, status := Failed)))
             else s.(synced := |s.log|, work := Some(w.(stage := ToInsert)))
  }

  ghost predicate InsertGroup(s: QueueState, s': QueueState) {
    && s.work.Some? && s.work.value.stage.ToInsert?
    && var w := s.work.value;
       s' == s.(inserted := s.inserted + Numbered(w.ops, w.first), work := Some(w.(stage := ToFinish)))
  }

  ghost predicate Finish(s: QueueState, s': QueueState) {
    && s.work.Some? && s.work.value.stage.ToFinish? && s.work.value.count <= |s.queue|
    && var w := s.work.value;
       var group := Group(s.queue[..w.count], w.ops, w.first, w.logged, w.status);
       s' == s.(work := None, queue := s.queue[w.count..], lastSequence := s.lastSequence + |w.ops|,
                results := Acknowledged(s.results, group.writers, w.status), groups := s.groups + [group])
  }

  function Acknowledged(results: map<nat, Status>, writers: seq<Writer>, status: Status): map<nat, Status> {
    if writers == [] then results
    else Acknowledged(results, writers[..|writers| - 1], status)[writers[|writers| - 1].id := status]
  }

  datatype Action = DoEnqueue(w: Writer) | DoLead(roomFails: bool) | DoLog(logFails: bool) | DoSync(syncFails: bool) | DoInsert | DoFinish

  ghost predicate Step(s: QueueState, s': QueueState, a: Action) {
    match a
    case DoEnqueue(w) => Enqueue(s, s', w)
    case DoLead(fails) => Lead(s, s', fails)
    case DoLog(fails) => LogRecord(s, s', fails)
    case DoSync(fails) => SyncLog(s, s', fails)
    case DoInsert => InsertGroup(s, s')
    case DoFinish => Finish(s, s')
  }

  // ----- the invariant -----

  ghost predicate DistinctIds(writers: seq<Writer>) {
    forall i, j :: 0 <= i < j < |writers| ==> writers[i].id != writers[j].id
  }

  ghost predicate GoodGroup(g: Group) {
    && g.writers != [] && (g.writers[0].batch.None? ==> |g.writers| == 1)
    && (g.status.Ok? || g.logged ==> g.ops == OpsOf(g.writers))
    && (g.status.Ok? && g.writers[0].batch.Some? ==> g.logged)
    && (!g.writers[0].sync ==> forall w :: w in g.writers ==> !w.sync)
  }

  // What is in the log of the groups up to k has been synced if group k had to be.
  ghost predicate Durable(groups: seq<Group>, k: nat, synced: nat)
    requires k < |groups| && groups[k].writers != []
  {
    groups[k].status.Ok? && groups[k].logged && groups[k].writers[0].sync ==> |Records(groups[..k + 1])| <= synced
  }

  ghost predicate GroupsInv(groups: seq<Group>, synced: nat) {
    forall k :: 0 <= k < |groups| ==>
      GoodGroup(groups[k]) && groups[k].first == 1 + TotalOps(groups[..k]) && Durable(groups, k, synced)
  }

  ghost predicate ResultsInv(results: map<nat, Status>, groups: seq<Group>) {
    && (forall k, w :: 0 <= k < |groups| && w in groups[k].writers ==> w.id in results && results[w.id] == groups[k].status)
    && (forall id :: id in results ==> exists w :: w in Members(groups) && w.id == id)
  }

  function GroupOf(queue: seq<Writer>, w: Work): Group
    requires w.count <= |queue|
  {
    Group(queue[..w.count], w.ops, w.first, w.logged, w.status)
  }

  ghost predicate WorkInv(s: QueueState, w: Work) {
    && 0 < w.count <= |s.queue| && w.last == s.queue[w.count - 1].id && w.first == s.lastSequence + 1
    && var g := GroupOf(s.queue, w);
       && (!g.writers[0].sync ==> forall v :: v in g.writers ==> !v.sync)
       && (!w.stage.ToFinish? ==> g.writers[0].batch.Some?)
       && s.log == Records(s.groups) + GroupRecords(g)
       && s.inserted == Entries(s.groups) + (if w.stage.ToFinish? then GroupEntries(g) else [])
       && (w.stage.ToFinish? ==> GoodGroup(g) && (w.logged && w.status.Ok? && g.writers[0].sync ==> |s.log| <= s.synced))
       && (!w.stage.ToFinish? ==> w.status.Ok? && w.ops == OpsOf(g.writers) && (w.logged <==> !w.stage.ToLog?))
       && (w.stage.ToInsert? && g.writers[0].sync ==> |s.log| <= s.synced)
  }

  /** Every writer that has arrived is in exactly one group or still waits, in order; groups are
      numbered without gaps; the log and the memtable hold what the groups say. */
  ghost predicate Inv(s: QueueState) {
    && DistinctIds(s.arrived)
    && s.arrived == Members(s.groups) + s.queue
    && s.lastSequence == TotalOps(s.groups)
    && s.synced <= |s.log|
    && GroupsInv(s.groups, s.synced)
    && ResultsInv(s.results, s.groups)
    && (s.work.None? ==> s.log == Records(s.groups) && s.inserted == Entries(s.groups))
    && (s.work.Some? ==> WorkInv(s, s.work.value))
  }

  lemma InitInv(s: QueueState)
    requires Init(s)
    ensures Inv(s)
  {
  }

  lemma StepKeepsInv(s: QueueState, s': QueueState, a: Action)
    requires Inv(s) && Step(s, s', a)
    ensures Inv(s')
  {
    hide GroupsInv, ResultsInv, WorkInv, DistinctIds, Members, Records, Entries, TotalOps;
    match a {
      case DoEnqueue(w) => EnqueueKeepsInv(s, s', w);
      case DoLead(fails) => LeadKeepsInv(s, s', fails);
      case DoLog(fails) => LogKeepsInv(s, s', fails);
      case DoSync(fails) => SyncKeepsInv(s, s', fails);
      case DoInsert => InsertKeepsInv(s, s');
      case DoFinish => FinishKeepsInv(s, s');
    }
  }

  lemma EnqueueKeepsInv(s: QueueState, s': QueueState, w: Writer)
    requires Inv(s) && Enqueue(s, s', w)
    ensures Inv(s')
  {
    hide GroupsInv, ResultsInv, Members, Records, Entries, TotalOps, GoodGroup;
    if s.work.Some? {
      assert s'.queue[..s.work.value.count] == s.queue[..s.work.value.count];
    }
  }

  lemma LeadKeepsInv(s: QueueState, s': QueueState, fails: bool)
    requires Inv(s) && Lead(s, s', fails)
    ensures Inv(s')
  {
    hide GroupsInv, ResultsInv, Members, Records, Entries, TotalOps, DistinctIds;
    var w := s'.work.value;
    if w.stage.ToLog? {
      GroupLimits(s.queue, w.count);
    } else {
      assert OpsOf(s.queue[..1][..0]) == [];
    }
  }

  lemma LogKeepsInv(s: QueueState, s': QueueState, fails: bool)
    requires Inv(s) && LogRecord(s, s', fails)
    ensures Inv(s')
  {
    hide GroupsInv, ResultsInv, Members, Records, Entries, TotalOps, DistinctIds, OpsOf;
  }

  lemma SyncKeepsInv(s: QueueState, s': QueueState, fails: bool)
    requires Inv(s) && SyncLog(s, s', fails)
    ensures Inv(s')
  {
    hide ResultsInv, Members, Records, Entries, TotalOps, DistinctIds, OpsOf;
  }

  lemma InsertKeepsInv(s: QueueState, s': QueueState)
    requires Inv(s) && InsertGroup(s, s')
    ensures Inv(s')
  {
    hide GroupsInv, ResultsInv, Members, Records, Entries, TotalOps, DistinctIds, OpsOf;
  }

  lemma FinishKeepsInv(s: QueueState, s': QueueState)
    requires Inv(s) && Finish(s, s')
    ensures Inv(s')
  {
    hide DistinctIds, OpsOf, Acknowledged, GroupsInv, ResultsInv, GoodGroup, Durable, Numbered;
    var g := GroupOf(s.queue, s.work.value);
    assert s'.groups[..|s.groups|] == s.groups;
    assert s.queue == g.writers + s'.queue;
    assert Members(s'.groups) == Members(s.groups) + g.writers;
    assert s'.arrived == Members(s'.groups) + s'.queue;
    GroupsGrow(s.groups, g, s.synced);
    ResultsGrow(s.results, s.groups, g, s'.queue);
  }

  lemma GroupsGrow(groups: seq<Group>, g: Group, synced: nat)
    requires GroupsInv(groups, synced) && GoodGroup(g) && g.first == 1 + TotalOps(groups)
    requires g.status.Ok? && g.logged && g.writers[0].sync ==> |Records(groups) + GroupRecords(g)| <= synced
    ensures GroupsInv(groups + [g], synced)
  {
    var all := groups + [g];
    forall k | 0 <= k < |all| ensures GoodGroup(all[k]) && all[k].first == 1 + TotalOps(all[..k]) && Durable(all, k, synced) {
      if k < |groups| {
        assert all[..k] == groups[..k] && all[..k + 1] == groups[..k + 1];
        assert Durable(groups, k, synced);
      } else {
        assert all[..k] == groups && all[..k + 1] == all;
      }
    }
  }

  lemma {:induction false} AcknowledgedExactly(results: map<nat, Status>, writers: seq<Writer>, status: Status)
    ensures var r := Acknowledged(results, writers, status);
            && (forall w :: w in writers ==> w.id in r && r[w.id] == status)
            && (forall id :: id in r ==> id in results || exists w :: w in writers && w.id == id)
            && (forall id :: id in results && (forall w :: w in writers ==> w.id != id) ==> id in r && r[id] == results[id])
  {
    if writers != [] {
      AcknowledgedExactly(results, writers[..|writers| - 1], status);
      assert writers == writers[..|writers| - 1] + [writers[|writers| - 1]];
    }
  }

  lemma {:induction false} InMembers(groups: seq<Group>, k: nat, w: Writer)
    requires k < |groups| && w in groups[k].writers
    ensures w in Members(groups)
  {
    if k < |groups| - 1 {
      InMembers(groups[..|groups| - 1], k, w);
    }
  }

  lemma MembersGrow(groups: seq<Group>, g: Group)
    ensures Members(groups + [g]) == Members(groups) + g.writers
  {
    assert (groups + [g])[..|groups|] == groups;
  }

  // A writer of an earlier group keeps its result.
  lemma OldResultKept(results: map<nat, Status>, groups: seq<Group>, g: Group, rest: seq<Writer>, k: nat, w: Writer)
    requires ResultsInv(results, groups) && DistinctIds(Members(groups) + (g.writers + rest))
    requires k < |groups| && w in groups[k].writers
    ensures var r := Acknowledged(results, g.writers, g.status); w.id in r && r[w.id] == groups[k].status
  {
    hide Acknowledged, DistinctIds, Members;
    AcknowledgedExactly(results, g.writers, g.status);
    InMembers(groups, k, w);
    forall v | v in g.writers ensures v.id != w.id {
      DifferentIds(Members(groups), g.writers, rest, w, v);
    }
  }

  lemma ResultsOwned(results: map<nat, Status>, groups: seq<Group>, g: Group, id: nat) returns (w: Writer)
    requires ResultsInv(results, groups) && id in Acknowledged(results, g.writers, g.status)
    ensures w in Members(groups) + g.writers && w.id == id
  {
    hide Acknowledged, Members;
    AcknowledgedExactly(results, g.writers, g.status);
    if id in results {
      w :| w in Members(groups) && w.id == id;
    } else {
      w :| w in g.writers && w.id == id;
    }
  }

  lemma ResultsGrow(results: map<nat, Status>, groups: seq<Group>, g: Group, rest: seq<Writer>)
    requires ResultsInv(results, groups) && DistinctIds(Members(groups) + (g.writers + rest))
    ensures ResultsInv(Acknowledged(results, g.writers, g.status), groups + [g])
  {
    var r, all := Acknowledged(results, g.writers, g.status), groups + [g];
    MembersGrow(groups, g);
    hide Acknowledged, DistinctIds, Members;
    forall k, w | 0 <= k < |all| && w in all[k].writers ensures w.id in r && r[w.id] == all[k].status {
      if k < |groups| {
        OldResultKept(results, groups, g, rest, k, w);
      } else {
        AcknowledgedExactly(results, g.writers, g.status);
      }
    }
    forall id | id in r ensures exists w :: w in Members(all) && w.id == id {
      var w := ResultsOwned(results, groups, g, id);
    }
  }

  lemma DifferentIds(a: seq<Writer>, b: seq<Writer>, c: seq<Writer>, v: Writer, w: Writer)
    requires DistinctIds(a + (b + c)) && v in a && w in b
    ensures v.id != w.id
  {
    var i :| 0 <= i < |a| && a[i] == v;
    var j :| 0 <= j < |b| && b[j] == w;
    var all := a + (b + c);
    assert all[i] == v && all[|a| + j] == w;
  }

  // ----- what holds in every run -----

  ghost predicate IsRun(states: seq<QueueState>, actions: seq<Action>) {
    && |states| == |actions| + 1
    && Init(states[0])
    && forall i :: 0 <= i < |actions| ==> Step(states[i], states[i + 1], actions[i])
  }

  lemma {:induction false} RunKeepsInv(states: seq<QueueState>, actions: seq<Action>, n: nat)
    requires IsRun(states, actions) && n < |states|
    ensures Inv(states[n])
  {
    hide Inv, Step, Init;
    if n == 0 {
      InitInv(states[0]);
    } else {
      RunKeepsInv(states, actions, n - 1);
      StepKeepsInv(states[n - 1], states[n], actions[n - 1]);
    }
  }

  // Recovery inserts the records of the log one after the other.
  function Replayed(log: seq<Record>): seq<Entry> {
    if log == [] then [] else Replayed(log[..|log| - 1]) + Numbered(log[|log| - 1].ops, log[|log| - 1].first)
  }

  ghost predicate NoErrors(groups: seq<Group>) {
    forall g :: g in groups ==> g.status.Ok?
  }

  lemma {:induction false} OpsOfConcat(a: seq<Writer>, b: seq<Writer>)
    ensures OpsOf(a + b) == OpsOf(a) + OpsOf(b)
  {
    if b == [] {
      assert a + b == a;
    } else {
      var n := |b| - 1;
      assert (a + b)[..|a + b| - 1] == a + b[..n] && (a + b)[|a + b| - 1] == b[n];
      OpsOfLast(b);
      OpsOfLast(a + b);
      hide *;
      OpsOfConcat(a, b[..n]);
    }
  }

  lemma GroupsInvPrefix(groups: seq<Group>, synced: nat, n: nat)
    requires GroupsInv(groups, synced) && n <= |groups|
    ensures GroupsInv(groups[..n], synced)
  {
    hide Records, TotalOps, OpsOf;
    var init := groups[..n];
    forall k | 0 <= k < n ensures GoodGroup(init[k]) && init[k].first == 1 + TotalOps(init[..k]) && Durable(init, k, synced) {
      assert init[..k] == groups[..k] && init[..k + 1] == groups[..k + 1];
      assert GoodGroup(groups[k]) && Durable(groups, k, synced);
    }
  }

  lemma ReplayOne(log: seq<Record>, g: Group)
    requires GoodGroup(g) && g.status.Ok?
    ensures Replayed(log + GroupRecords(g)) == Replayed(log) + GroupEntries(g)
  {
    if g.logged {
      assert (log + [Record(g.first, g.ops)])[..|log|] == log;
    } else {
      assert g.writers[..0] == [] && OpsOf(g.writers[..0]) == [];
      assert log + GroupRecords(g) == log;
    }
  }

  lemma NumberedConcat(a: seq<Op>, b: seq<Op>, first: nat)
    ensures Numbered(a + b, first) == Numbered(a, first) + Numbered(b, first + |a|)
  {
  }

  lemma {:induction false} NumberedGroups(groups: seq<Group>, synced: nat)
    requires GroupsInv(groups, synced) && NoErrors(groups)
    ensures Entries(groups) == Numbered(OpsOf(Members(groups)), 1)
    ensures TotalOps(groups) == |OpsOf(Members(groups))|
    ensures Replayed(Records(groups)) == Entries(groups)
  {
    hide OpsOf, Replayed, Durable, Numbered;
    if groups == [] {
      assert OpsOf([]) == [] && Replayed([]) == [] && Numbered([], 1) == [] by {
        NothingNumbered();
      }
    } else {
      var n := |groups| - 1;
      var init, g := groups[..n], groups[n];
      GroupsInvPrefix(groups, synced, n);
      NumberedGroups(init, synced);
      assert g in groups && GoodGroup(g) && g.first == 1 + TotalOps(init);
      LastGroupParts(groups);
      hide Members, Entries, Records, TotalOps, GroupsInv;
      OpsOfConcat(Members(init), g.writers);
      NumberedConcat(OpsOf(Members(init)), g.ops, 1);
      ReplayOne(Records(init), g);
    }
  }

  lemma LastGroupParts(groups: seq<Group>)
    requires groups != []
    ensures var init, g := groups[..|groups| - 1], groups[|groups| - 1];
            && Members(groups) == Members(init) + g.writers && TotalOps(groups) == TotalOps(init) + |g.ops|
            && Records(groups) == Records(init) + GroupRecords(g) && Entries(groups) == Entries(init) + GroupEntries(g)
  {
  }

  lemma NothingNumbered()
    ensures OpsOf([]) == [] && Replayed([]) == [] && Numbered([], 1) == []
  {
  }

  /** As long as no write fails, whatever has left the queue has been inserted once, in queue
      order and numbered from 1 on without gaps, and replaying the log gives the same entries. */
  lemma EachBatchOnceInOrder(states: seq<QueueState>, actions: seq<Action>, n: nat)
    requires IsRun(states, actions) && n < |states| && NoErrors(states[n].groups) && states[n].work.None?
    ensures var s := states[n];
            && |s.queue| <= |s.arrived|
            && DistinctIds(s.arrived)
            && var done := s.arrived[..|s.arrived| - |s.queue|];
               && s.arrived == done + s.queue
               && s.inserted == Numbered(OpsOf(done), 1)
               && s.lastSequence == |OpsOf(done)|
               && Replayed(s.log) == s.inserted
               && (forall w :: w in done ==> w.id in s.results && s.results[w.id] == Ok)
  {
    RunKeepsInv(states, actions, n);
    var s := states[n];
    NumberedGroups(s.groups, s.synced);
    assert s.arrived[..|s.arrived| - |s.queue|] == Members(s.groups);
    forall w | w in Members(s.groups) ensures w.id in s.results && s.results[w.id] == Ok {
      var k := GroupWith(s.groups, w);
      assert s.groups[k] in s.groups;
    }
  }

  lemma {:induction false} GroupWith(groups: seq<Group>, w: Writer) returns (k: nat)
    requires w in Members(groups)
    ensures k < |groups| && w in groups[k].writers
  {
    if w in groups[|groups| - 1].writers {
      k := |groups| - 1;
    } else {
      k := GroupWith(groups[..|groups| - 1], w);
    }
  }

  lemma {:induction false} RecordsGrow(groups: seq<Group>, m: nat)
    requires m <= |groups|
    ensures Records(groups[..m]) <= Records(groups) && Entries(groups[..m]) <= Entries(groups)
  {
    if m < |groups| {
      RecordsGrow(groups[..|groups| - 1], m);
      assert groups[..|groups| - 1][..m] == groups[..m];
    } else {
      assert groups[..m] == groups;
    }
  }

  lemma OpsOfPart(writers: seq<Writer>, i: nat)
    requires i < |writers|
    ensures OpsOf(writers) == OpsOf(writers[..i]) + BatchOps(writers[i]) + OpsOf(writers[i + 1..])
  {
    hide *;
    WritersSplit(writers, i);
    OpsOfConcat(writers[..i + 1], writers[i + 1..]);
    OpsOfLast(writers[..i + 1]);
  }

  lemma WritersSplit(writers: seq<Writer>, i: nat)
    requires i < |writers|
    ensures writers[..i + 1] + writers[i + 1..] == writers && writers[..i + 1][..i] == writers[..i]
  {
  }

  lemma OpsOfLast(writers: seq<Writer>)
    requires writers != []
    ensures OpsOf(writers) == OpsOf(writers[..|writers| - 1]) + BatchOps(writers[|writers| - 1])
  {
  }

  // The operations of writer i of the group are in the memtable under consecutive numbers, and
  // its batch is in the log, in the synced part of it if the writer asked for that.
  ghost predicate Committed(s: QueueState, g: Group, i: nat)
    requires i < |g.writers| && s.synced <= |s.log|
  {
    var w := g.writers[i];
    var first := g.first + |OpsOf(g.writers[..i])|;
    && (forall j :: 0 <= j < |BatchOps(w)| ==> OpEntry(BatchOps(w)[j], first + j) in s.inserted)
    && (w.batch.Some? ==> Record(g.first, OpsOf(g.writers)) in if w.sync then s.log[..s.synced] else s.log)
  }

  /** With or without failures: a writer that was told its write succeeded is committed,
      whoever led its group. */
  lemma AcknowledgedMeansCommitted(s: QueueState, k: nat, i: nat)
    requires Inv(s) && k < |s.groups| && i < |s.groups[k].writers|
    requires s.groups[k].writers[i].id in s.results && s.results[s.groups[k].writers[i].id] == Ok
    ensures Committed(s, s.groups[k], i)
  {
    var g, w := s.groups[k], s.groups[k].writers[i];
    GroupFacts(s, k, i);
    hide *;
    LastGroup(s.groups, k);
    EntriesCommitted(s, g, i, Entries(s.groups[..k]));
    if w.batch.Some? {
      RecordCommitted(s, g, w.sync, Records(s.groups[..k]));
    }
    CommittedParts(s, g, i);
  }

  lemma CommittedParts(s: QueueState, g: Group, i: nat)
    requires i < |g.writers| && s.synced <= |s.log|
    requires var first := g.first + |OpsOf(g.writers[..i])|;
             forall j :: 0 <= j < |BatchOps(g.writers[i])| ==> OpEntry(BatchOps(g.writers[i])[j], first + j) in s.inserted
    requires g.writers[i].batch.Some? ==> Record(g.first, OpsOf(g.writers)) in if g.writers[i].sync then s.log[..s.synced] else s.log
    ensures Committed(s, g, i)
  {
  }

  lemma GroupFacts(s: QueueState, k: nat, i: nat)
    requires Inv(s) && k < |s.groups| && i < |s.groups[k].writers|
    requires s.groups[k].writers[i].id in s.results && s.results[s.groups[k].writers[i].id] == Ok
    ensures var g, w := s.groups[k], s.groups[k].writers[i];
            && g.status.Ok? && g.ops == OpsOf(g.writers) && (w.batch.Some? ==> g.logged)
            && (w.batch.Some? && w.sync ==> |Records(s.groups[..k + 1])| <= s.synced)
    ensures s.synced <= |s.log| && Entries(s.groups[..k + 1]) <= s.inserted && Records(s.groups[..k + 1]) <= s.log
  {
    hide DistinctIds, WorkInv, Records, Entries, OpsOf, Members;
    var g, w := s.groups[k], s.groups[k].writers[i];
    assert w in g.writers && g.status == Ok && GoodGroup(g) && Durable(s.groups, k, s.synced);
    LogHoldsGroups(s);
    RecordsGrow(s.groups, k + 1);
  }

  lemma EntriesCommitted(s: QueueState, g: Group, i: nat, before: seq<Entry>)
    requires i < |g.writers| && g.status.Ok? && g.ops == OpsOf(g.writers) && before + GroupEntries(g) <= s.inserted
    ensures var first := g.first + |OpsOf(g.writers[..i])|;
            forall j :: 0 <= j < |BatchOps(g.writers[i])| ==> OpEntry(BatchOps(g.writers[i])[j], first + j) in s.inserted
  {
    hide OpsOf, GroupEntries, BatchOps, OpEntry;
    var at := |OpsOf(g.writers[..i])|;
    forall j | 0 <= j < |BatchOps(g.writers[i])| ensures OpEntry(BatchOps(g.writers[i])[j], g.first + at + j) in s.inserted {
      OpInGroup(g, i, j);
      WithinPrefix(before, GroupEntries(g), s.inserted, at + j);
    }
  }

  lemma RecordCommitted(s: QueueState, g: Group, sync: bool, before: seq<Record>)
    requires g.logged && g.ops == OpsOf(g.writers) && before + GroupRecords(g) <= s.log && s.synced <= |s.log|
    requires sync ==> |before + GroupRecords(g)| <= s.synced
    ensures Record(g.first, OpsOf(g.writers)) in if sync then s.log[..s.synced] else s.log
  {
    hide OpsOf;
    WithinPrefix(before, GroupRecords(g), if sync then s.log[..s.synced] else s.log, 0);
  }

  lemma OpInGroup(g: Group, i: nat, j: nat)
    requires i < |g.writers| && g.status.Ok? && g.ops == OpsOf(g.writers) && j < |BatchOps(g.writers[i])|
    ensures var at := |OpsOf(g.writers[..i])| + j;
            at < |GroupEntries(g)| && GroupEntries(g)[at] == OpEntry(BatchOps(g.writers[i])[j], g.first + at)
  {
    hide OpsOf, BatchOps;
    OpsOfPart(g.writers, i);
    assert g.ops[|OpsOf(g.writers[..i])| + j] == BatchOps(g.writers[i])[j];
  }

  lemma LastGroup(groups: seq<Group>, k: nat)
    requires k < |groups|
    ensures Records(groups[..k + 1]) == Records(groups[..k]) + GroupRecords(groups[k])
    ensures Entries(groups[..k + 1]) == Entries(groups[..k]) + GroupEntries(groups[k])
  {
    assert groups[..k + 1][..k] == groups[..k];
  }

  lemma WithinPrefix<T>(a: seq<T>, b: seq<T>, all: seq<T>, j: nat)
    requires a + b <= all && j < |b|
    ensures b[j] in all
  {
    assert (a + b)[|a| + j] == b[j];
  }

  lemma LogHoldsGroups(s: QueueState)
    requires Inv(s)
    ensures Entries(s.groups) <= s.inserted && Records(s.groups) <= s.log
  {
    hide GroupsInv, ResultsInv, DistinctIds, Members, Records, Entries, TotalOps, GoodGroup;
  }

  /** Once a sync has failed, nothing is logged or inserted any more. */
  lemma {:induction false} FailedSyncStopsWrites(states: seq<QueueState>, actions: seq<Action>, m: nat, n: nat)
    requires IsRun(states, actions) && m <= n < |states|
    requires states[m].broken && (states[m].work.None? || states[m].work.value.stage.ToFinish?)
    ensures states[n].broken && (states[n].work.None? || states[n].work.value.stage.ToFinish?)
    ensures states[n].log == states[m].log && states[n].inserted == states[m].inserted
  {
    if m < n {
      FailedSyncStopsWrites(states, actions, m, n - 1);
      assert Step(states[n - 1], states[n - 1 + 1], actions[n - 1]);
    }
  }

  /** What one group adds to the memtable is one write of the store. */
  lemma {:induction false} GroupIsOneWrite(ops: seq<Op>, first: nat)
    ensures AsSet(Numbered(ops, first)) == BatchEntries(ops, first)
  {
    var n := |ops| - 1;
    if ops != [] {
      GroupIsOneWrite(ops[..n], first);
      var entries := Numbered(ops, first);
      assert entries == Numbered(ops[..n], first) + [entries[n]];
    }
  }
}
