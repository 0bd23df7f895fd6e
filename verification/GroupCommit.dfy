/** The write path as an object: each method is what one call of Write does between taking and
    releasing the mutex, or between two effects while the mutex is released. */
module GroupCommit {
  import opened DbFormat
  import Lsm
  import opened WriteQueue

  class CommitQueue {
    var queue: seq<Writer>
    var work: Option<Work>
    var log: seq<Record>
    var synced: nat
    var inserted: seq<Entry>
    var lastSequence: nat
    var results: map<nat, Status>
    var broken: bool
    // Holds the batches of a group of several until the group is finished.
    var tmpBatch: seq<Lsm.Op>
    ghost var arrived: seq<Writer>
    ghost var groups: seq<Group>

    ghost function Abs(): QueueState
      reads this
    {
      QueueState(queue, work, log, synced, inserted, lastSequence, results, broken, arrived, groups)
    }

    ghost predicate Valid()
      reads this
    {
      Inv(Abs()) && (work.None? ==> tmpBatch == [])
    }

    constructor ()
      ensures Valid() && Init(Abs())
    {
      queue, work, log, synced, inserted, lastSequence := [], None, [], 0, [], 0;
      results, broken, tmpBatch, arrived, groups := map[], false, [], [], [];
      new;
      InitInv(Abs());
    }

    method Enqueue(w: Writer)
      requires Valid() && forall v :: v in arrived ==> v.id != w.id
      modifies this
      ensures Valid() && Step(old(Abs()), Abs(), DoEnqueue(w))
    {
      hide Inv;
      ghost var s := Abs();
      queue := queue + [w];
      arrived := arrived + [w];
      StepKeepsInv(s, Abs(), DoEnqueue(w));
    }

    /** Takes batches from the front of the queue up to the first that must not join. */
    method BuildBatchGroup() returns (ops: seq<Lsm.Op>, last: nat, count: nat)
      requires queue != [] && queue[0].batch.Some? && tmpBatch == []
      modifies this`tmpBatch
      ensures IsGroup(queue, count) && ops == OpsOf(queue[..count]) && last == queue[count - 1].id
    {
      hide OpsOf, BytesOf;
      var first := queue[0];
      var usesTmp := false;
      var size := first.batch.value.bytes;
      var maxSize := MAX_GROUP_BYTES;
      if size <= SMALL_WRITE_BYTES {
        maxSize := size + SMALL_WRITE_BYTES;
      }
      last := first.id;
      var iter := 1;
      FrontOne(queue);
      while iter < |queue|
        invariant 1 <= iter <= |queue| && last == queue[iter - 1].id
        invariant size == BytesOf(queue[..iter])
        invariant if usesTmp then tmpBatch == OpsOf(queue[..iter])
                  else tmpBatch == [] && first.batch.value.ops == OpsOf(queue[..iter])
        invariant forall i :: 0 < i < iter ==> !StopsAt(queue, i)
      {
        var w := queue[iter];
        if w.sync && !first.sync {
          break;
        }
        FrontStep(queue, iter);
        if w.batch.Some? {
          size := size + w.batch.value.bytes;
          if size > maxSize {
            break;
          }
          if !usesTmp {
            usesTmp := true;
            tmpBatch := tmpBatch + first.batch.value.ops;
          }
          tmpBatch := tmpBatch + w.batch.value.ops;
        }
        last := w.id;
        iter := iter + 1;
      }
      count := iter;
      ops := if usesTmp then tmpBatch else first.batch.value.ops;
    }

    /** The writer at the front makes room and forms its group. */
    method Lead(roomFails: bool)
      requires Valid() && work.None? && queue != []
      modifies this
      ensures Valid() && Step(old(Abs()), Abs(), DoLead(roomFails))
    {
      hide Inv, IsGroup;
      ghost var s := Abs();
      var front := queue[0];
      if broken || roomFails {
        work := Some(Work(1, front.id, [], lastSequence + 1, ToFinish, false, Failed));
      } else if front.batch.None? {
        work := Some(Work(1, front.id, [], lastSequence + 1, ToFinish, false, Ok));
      } else {
        var ops, last, count := BuildBatchGroup();
        work := Some(Work(count, last, ops, lastSequence + 1, ToLog, false, Ok));
      }
      StepKeepsInv(s, Abs(), DoLead(roomFails));
    }

    method LogGroup(fails: bool)
      requires Valid() && work.Some? && work.value.stage.ToLog? && queue != []
      modifies this
      ensures Valid() && Step(old(Abs()), Abs(), DoLog(fails))
    {
      hide Inv;
      ghost var s := Abs();
      var w := work.value;
      if fails {
        work := Some(w.(stage := ToFinish, status := Failed));
      } else {
        log := log + [Record(w.first, w.ops)];
        work := Some(w.(stage := if queue[0].sync then ToSync else ToInsert, logged := true));
      }
      StepKeepsInv(s, Abs(), DoLog(fails));
    }

    method SyncGroup(fails: bool)
      requires Valid() && work.Some? && work.value.stage.ToSync?
      modifies this
      ensures Valid() && Step(old(Abs()), Abs(), DoSync(fails))
    {
      hide Inv;
      ghost var s := Abs();
      if fails {
        broken := true;
        work := Some(work.value.(stage := ToFinish, status := Failed));
      } else {
        synced := |log|;
        work := Some(work.value.(stage := ToInsert));
      }
      StepKeepsInv(s, Abs(), DoSync(fails));
    }

    /** Adds the operations of the group to the memtable one by one. */
    method InsertGroupIntoMemTable()
      requires Valid() && work.Some? && work.value.stage.ToInsert?
      modifies this
      ensures Valid() && Step(old(Abs()), Abs(), DoInsert)
    {
      hide Inv;
      ghost var s := Abs();
      var w := work.value;
      var sequence := w.first;
      for i := 0 to |w.ops|
        invariant sequence == w.first + i
        invariant inserted == s.inserted + Numbered(w.ops, w.first)[..i]
        invariant Abs() == s.(inserted := inserted) && tmpBatch == old(tmpBatch)
      {
        inserted := inserted + [Lsm.OpEntry(w.ops[i], sequence)];
        sequence := sequence + 1;
      }
      work := Some(w.(stage := ToFinish));
      StepKeepsInv(s, Abs(), DoInsert);
    }

    /** Takes the writers of the group off the queue, each with the status of the group. */
    method FinishGroup()
      requires Valid() && work.Some? && work.value.stage.ToFinish?
      modifies this
      ensures Valid() && Step(old(Abs()), Abs(), DoFinish)
    {
      hide Inv, Acknowledged;
      ghost var s := Abs();
      var w := work.value;
      WorkAtFront(s);
      ghost var group := GroupOf(queue, w);
      NoneAcknowledged(results, w.status);
      tmpBatch := [];
      lastSequence := lastSequence + |w.ops|;
      ghost var popped := 0;
      while true
        invariant popped < w.count && queue == s.queue[popped..]
        invariant results == Acknowledged(s.results, s.queue[..popped], w.status)
        invariant Abs() == s.(queue := queue, results := results, lastSequence := s.lastSequence + |w.ops|) && tmpBatch == []
        decreases |queue|
      {
        var ready := queue[0];
        OneAcknowledged(s.results, s.queue, popped, w.status);
        queue := queue[1..];
        results := results[ready.id := w.status];
        popped := popped + 1;
        if ready.id == w.last {
          break;
        }
      }
      work := None;
      groups := groups + [group];
      StepKeepsInv(s, Abs(), DoFinish);
    }
  }

  lemma NoneAcknowledged(results: map<nat, Status>, status: Status)
    ensures Acknowledged(results, [], status) == results
  {
  }

  lemma OneAcknowledged(results: map<nat, Status>, queue: seq<Writer>, i: nat, status: Status)
    requires i < |queue|
    ensures Acknowledged(results, queue[..i + 1], status) == Acknowledged(results, queue[..i], status)[queue[i].id := status]
  {
    assert queue[..i + 1][..i] == queue[..i];
  }

  // The last writer of the group is in the queue once.
  lemma WorkAtFront(s: QueueState)
    requires Inv(s) && s.work.Some?
    ensures var w := s.work.value;
            && 0 < w.count <= |s.queue| && s.queue[w.count - 1].id == w.last
            && forall i :: 0 <= i < |s.queue| && s.queue[i].id == w.last ==> i == w.count - 1
  {
    hide GroupsInv, ResultsInv, Members, Records, Entries, GoodGroup;
    forall i | 0 <= i < |s.queue| ensures s.arrived[|Members(s.groups)| + i] == s.queue[i] {
    }
  }
}
