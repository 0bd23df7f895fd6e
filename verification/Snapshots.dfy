/** The live snapshots: a circular doubly linked list, oldest first. */
module Snapshots {
  class Snapshot {
    const number: nat
    var prev: Snapshot
    var next: Snapshot

    // Linked to itself.
    constructor (number: nat)
      ensures this.number == number && prev == this && next == this
    {
      this.number := number;
      prev, next := this, this;
    }
  }

  ghost predicate Distinct(ring: seq<Snapshot>) {
    forall i, j :: 0 <= i < j < |ring| ==> ring[i] != ring[j]
  }

  // Node i of the ring and the one after it point at each other.
  ghost predicate LinkedAt(ring: seq<Snapshot>, i: nat)
    requires i < |ring|
    reads ring
  {
    var j := if i + 1 == |ring| then 0 else i + 1;
    ring[i].next == ring[j] && ring[j].prev == ring[i]
  }

  ghost predicate Linked(ring: seq<Snapshot>)
    reads ring
  {
    Distinct(ring) && forall i :: 0 <= i < |ring| ==> LinkedAt(ring, i)
  }

  ghost function NumbersOf(nodes: seq<Snapshot>): seq<nat> {
    seq(|nodes|, i requires 0 <= i < |nodes| => nodes[i].number)
  }

  class SnapshotList {
    const head: Snapshot
    ghost var nodes: seq<Snapshot>

    ghost predicate Valid()
      reads this, head, nodes
    {
      && Linked([head] + nodes)
      && Ascending(nodes)
    }

    // The sequence numbers of the live snapshots.
    ghost function Numbers(): seq<nat>
      reads this
    {
      NumbersOf(nodes)
    }

    constructor ()
      ensures Valid() && nodes == [] && fresh(head)
    {
      head := new Snapshot(0);
      nodes := [];
    }

    predicate Empty()
      requires Valid()
      reads this, head, nodes
      ensures Empty() <==> nodes == []
    {
      assert LinkedAt([head] + nodes, 0) && (nodes != [] ==> ([head] + nodes)[1] == nodes[0]);
      head.next == head
    }

    // The least live sequence number.
    function Oldest(): (s: Snapshot)
      requires Valid() && nodes != []
      reads this, head, nodes
      ensures s == nodes[0] && forall t :: t in nodes ==> s.number <= t.number
    {
      assert LinkedAt([head] + nodes, 0) && ([head] + nodes)[1] == nodes[0];
      head.next
    }

    function Newest(): (s: Snapshot)
      requires Valid() && nodes != []
      reads this, head, nodes
      ensures s == nodes[|nodes| - 1] && forall t :: t in nodes ==> t.number <= s.number
    {
      assert LinkedAt([head] + nodes, |nodes|) && ([head] + nodes)[|nodes|] == nodes[|nodes| - 1];
      head.prev
    }

    method New(number: nat) returns (snapshot: Snapshot)
      requires Valid() && (nodes != [] ==> nodes[|nodes| - 1].number <= number)
      modifies this`nodes, head, nodes
      ensures Valid() && fresh(snapshot) && snapshot.number == number
      ensures nodes == old(nodes) + [snapshot] && Numbers() == old(Numbers()) + [number]
    {
      ghost var ring := [head] + nodes;
      assert LinkedAt(ring, |nodes|);
      snapshot := new Snapshot(number);
      snapshot.next := head;
      snapshot.prev := head.prev;
      snapshot.prev.next := snapshot;
      snapshot.next.prev := snapshot;
      nodes := nodes + [snapshot];
      assert [head] + nodes == ring + [snapshot];
      forall k | 0 <= k < |ring| + 1 ensures LinkedAt(ring + [snapshot], k) {
        assert k < |ring| ==> old(LinkedAt(ring, k));
      }
    }

    method Delete(snapshot: Snapshot) returns (ghost i: nat)
      requires Valid() && snapshot in nodes
      modifies this`nodes, head, nodes
      ensures Valid() && i < |old(nodes)| && old(nodes)[i] == snapshot
      ensures nodes == old(nodes)[..i] + old(nodes)[i + 1..]
      ensures Numbers() == old(Numbers())[..i] + old(Numbers())[i + 1..]
    {
      i :| 0 <= i < |nodes| && nodes[i] == snapshot;
      ghost var ring := [head] + nodes;
      RemovedOne(ring, nodes, i);
      hide Linked, Ascending, NumbersOf;
      Unlink(ring, i, snapshot);
      nodes := nodes[..i] + nodes[i + 1..];
      assert [head] + nodes == ring[..i + 1] + ring[i + 2..];
    }
  }

  // Takes the node after node i out of the ring.
  method Unlink(ghost ring: seq<Snapshot>, ghost i: nat, snapshot: Snapshot)
    requires Linked(ring) && i + 1 < |ring| && ring[i + 1] == snapshot
    modifies ring
    ensures Linked(ring[..i + 1] + ring[i + 2..])
  {
    assert LinkedAt(ring, i) && LinkedAt(ring, i + 1);
    snapshot.prev.next := snapshot.next;
    snapshot.next.prev := snapshot.prev;
    ghost var left := ring[..i + 1] + ring[i + 2..];
    forall k | 0 <= k < |left| ensures LinkedAt(left, k) {
      var m := if k <= i then k else k + 1;
      assert left[k] == ring[m] && old(LinkedAt(ring, m));
    }
  }

  ghost predicate Ascending(nodes: seq<Snapshot>) {
    forall i, j :: 0 <= i < j < |nodes| ==> nodes[i].number <= nodes[j].number
  }

  lemma RemovedOne(ring: seq<Snapshot>, nodes: seq<Snapshot>, i: nat)
    requires Ascending(nodes) && i < |nodes| && |ring| == |nodes| + 1 && ring[1..] == nodes
    ensures [ring[0]] + (nodes[..i] + nodes[i + 1..]) == ring[..i + 1] + ring[i + 2..]
    ensures Ascending(nodes[..i] + nodes[i + 1..])
    ensures NumbersOf(nodes[..i] + nodes[i + 1..]) == NumbersOf(nodes)[..i] + NumbersOf(nodes)[i + 1..]
  {
  }
}
