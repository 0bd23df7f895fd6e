/** The value that every layer of the store is measured against: entries, their order,
    and what a read at a snapshot means for a plain set of entries. */
module DbFormat {
  datatype Option<+T> = None | Some(value: T)

  type Byte = b: int | 0 <= b < 256
  type Bytes = seq<Byte>

  // A user key is its rank in the order of the user comparator: nothing in the modules that
  // use this type looks inside a key.  Comparator.RankEmbedsOrder justifies the choice.
  type UserKey = int

  const MAX_SEQUENCE: nat := 0xFF_FFFF_FFFF_FFFF
  const NUM_LEVELS: nat := 7
  const MAX_MEM_COMPACT_LEVEL: nat := 2

  datatype Kind = Deletion | Value {
    function Code(): nat {
      if Deletion? then 0 else 1
    }
  }

  datatype IKey = IKey(user: UserKey, seqno: nat, kind: Kind) {
    // The packed 64-bit trailer of an internal key.
    function Tag(): nat {
      seqno * 256 + kind.Code()
    }

    // Increasing user key, then decreasing tag.
    predicate Less(other: IKey) {
      user < other.user || (user == other.user && Tag() > other.Tag())
    }

    predicate AtMost(other: IKey) {
      !other.Less(this)
    }
  }

  // The smallest internal key that any entry of user visible at snapshot can have.
  function LookupKey(user: UserKey, snapshot: nat): IKey {
    IKey(user, snapshot, Value)
  }

  datatype Entry = Entry(key: IKey, value: Bytes)

  ghost predicate StrictlySorted(es: seq<Entry>) {
    forall i, j :: 0 <= i < j < |es| ==> es[i].key.Less(es[j].key)
  }

  ghost function AsSet(es: seq<Entry>): set<Entry> {
    set e | e in es
  }

  // The index of the first entry at or after target: what a seek stands on.
  function FirstAtOrAfter(list: seq<Entry>, target: IKey): (i: nat)
    ensures i <= |list|
    ensures forall j :: 0 <= j < i ==> list[j].key.Less(target)
    ensures i < |list| ==> target.AtMost(list[i].key)
  {
    if list == [] || !list[0].key.Less(target) then 0 else 1 + FirstAtOrAfter(list[1..], target)
  }

  lemma {:induction false} SubsetSize<T>(a: set<T>, b: set<T>)
    requires a <= b
    ensures |a| <= |b| && (a != b ==> |a| < |b|)
  {
    if a != {} {
      var x :| x in a;
      SubsetSize(a - {x}, b - {x});
      assert a == (a - {x}) + {x} && b == (b - {x}) + {x};
    }
  }

  // ----- reading a set of entries -----

  ghost predicate Candidate(d: Entry, user: UserKey, snapshot: nat) {
    d.key.user == user && d.key.seqno <= snapshot
  }

  ghost predicate IsNewest(entries: set<Entry>, user: UserKey, snapshot: nat, e: Entry) {
    && e in entries
    && Candidate(e, user, snapshot)
    && forall d :: d in entries && Candidate(d, user, snapshot) ==> d.key.seqno <= e.key.seqno
  }

  ghost predicate NoCandidate(entries: set<Entry>, user: UserKey, snapshot: nat) {
    forall d :: d in entries ==> !Candidate(d, user, snapshot)
  }

  function Meaning(e: Entry): Option<Bytes> {
    if e.key.kind.Value? then Some(e.value) else None
  }

  /** What a read of user at snapshot must return: the value of its newest entry that is not
      newer than the snapshot, and nothing if there is none or it is a deletion. */
  ghost function Read(entries: set<Entry>, user: UserKey, snapshot: nat): Option<Bytes> {
    if e :| IsNewest(entries, user, snapshot, e) then Meaning(e) else None
  }

  // A sequence number identifies the version of a user key.
  ghost predicate UniqueVersions(entries: set<Entry>) {
    forall a, b :: a in entries && b in entries && a.key.user == b.key.user && a.key.seqno == b.key.seqno ==> a == b
  }

  // Every version in upper is newer than every version of the same user key in lower.
  ghost predicate NewerAbove(upper: set<Entry>, lower: set<Entry>) {
    forall a, b :: a in upper && b in lower && a.key.user == b.key.user ==> a.key.seqno > b.key.seqno
  }

  // ----- facts about reads -----

  lemma ReadOfNewest(entries: set<Entry>, user: UserKey, snapshot: nat, e: Entry)
    requires UniqueVersions(entries)
    requires IsNewest(entries, user, snapshot, e)
    ensures Read(entries, user, snapshot) == Meaning(e)
  {
    assert forall d :: IsNewest(entries, user, snapshot, d) ==> d == e;
  }

  lemma {:induction false} NewestExists(entries: set<Entry>, user: UserKey, snapshot: nat) returns (e: Entry)
    requires !NoCandidate(entries, user, snapshot)
    ensures IsNewest(entries, user, snapshot, e)
    decreases entries
  {
    e :| e in entries && Candidate(e, user, snapshot);
    var rest := entries - {e};
    if !NoCandidate(rest, user, snapshot) {
      var d := NewestExists(rest, user, snapshot);
      if d.key.seqno > e.key.seqno {
        e := d;
      }
    }
    assert forall d :: d in entries ==> d == e || d in rest || d in entries - rest;
  }

  /** Two sets that hold the same versions of a key up to a snapshot read the same. */
  lemma ReadDependsOnCandidates(a: set<Entry>, b: set<Entry>, user: UserKey, snapshot: nat)
    requires UniqueVersions(a) && UniqueVersions(b)
    requires forall d :: Candidate(d, user, snapshot) ==> (d in a <==> d in b)
    ensures Read(a, user, snapshot) == Read(b, user, snapshot)
  {
    if !NoCandidate(a, user, snapshot) {
      var e := NewestExists(a, user, snapshot);
      assert IsNewest(b, user, snapshot, e);
      ReadOfNewest(a, user, snapshot, e);
      ReadOfNewest(b, user, snapshot, e);
    }
  }

  /** The search order newest source first is sound: once a source that is newer than all
      the others has a candidate, no other source matters. */
  lemma FirstSourceWins(upper: set<Entry>, lower: set<Entry>, user: UserKey, snapshot: nat)
    requires UniqueVersions(upper + lower)
    requires NewerAbove(upper, lower)
    ensures NoCandidate(upper + lower, user, snapshot) <==>
            NoCandidate(upper, user, snapshot) && NoCandidate(lower, user, snapshot)
    ensures Read(upper + lower, user, snapshot) ==
            if NoCandidate(upper, user, snapshot) then Read(lower, user, snapshot) else Read(upper, user, snapshot)
  {
    if NoCandidate(upper, user, snapshot) {
      ReadDependsOnCandidates(upper + lower, lower, user, snapshot);
    } else {
      var e := NewestExists(upper, user, snapshot);
      ReadOfNewest(upper, user, snapshot, e);
      ReadOfNewest(upper + lower, user, snapshot, e);
    }
  }
}
