/** The user's iterator: a bidirectional cursor over the keys visible at a snapshot, computed
    from an iterator over all versions of all keys. */
module DbIter {
  import opened DbFormat
  import opened Merger

  // ----- what the iterator stands for: a sorted map from user keys to values -----

  datatype Binding = Binding(key: UserKey, value: Bytes)

  // The user keys that a move looks at.
  datatype Range = AllKeys | From(key: UserKey) | Above(key: UserKey) | Below(key: UserKey) {
    predicate Has(user: UserKey) {
      match this
      case AllKeys => true
      case From(key) => key <= user
      case Above(key) => key < user
      case Below(key) => user < key
    }
  }

  ghost predicate IsFirst(entries: set<Entry>, snapshot: nat, range: Range, r: Option<Binding>) {
    match r
    case Some(b) =>
      && range.Has(b.key) && Read(entries, b.key, snapshot) == Some(b.value)
      && forall user :: range.Has(user) && Read(entries, user, snapshot).Some? ==> b.key <= user
    case None => forall user :: range.Has(user) ==> Read(entries, user, snapshot) == None
  }

  ghost predicate IsLast(entries: set<Entry>, snapshot: nat, range: Range, r: Option<Binding>) {
    match r
    case Some(b) =>
      && range.Has(b.key) && Read(entries, b.key, snapshot) == Some(b.value)
      && forall user :: range.Has(user) && Read(entries, user, snapshot).Some? ==> user <= b.key
    case None => forall user :: range.Has(user) ==> Read(entries, user, snapshot) == None
  }

  /** A move forward and then back, or back and then forward, ends where it began. */
  lemma MovesUndoEachOther(entries: set<Entry>, snapshot: nat, here: Binding, there: Binding, back: Option<Binding>)
    requires Read(entries, here.key, snapshot) == Some(here.value)
    ensures IsFirst(entries, snapshot, Above(here.key), Some(there)) && IsLast(entries, snapshot, Below(there.key), back) ==> back == Some(here)
    ensures IsLast(entries, snapshot, Below(here.key), Some(there)) && IsFirst(entries, snapshot, Above(there.key), back) ==> back == Some(here)
  {
    if back.Some? {
      assert Read(entries, back.value.key, snapshot).Some? ||
             !(IsLast(entries, snapshot, Below(there.key), back) || IsFirst(entries, snapshot, Above(there.key), back));
    }
  }

  // ----- the entries that yield a key -----

  predicate Visible(es: seq<Entry>, snapshot: nat, i: nat)
    requires i < |es|
  {
    es[i].key.seqno <= snapshot
  }

  // Entry i is a value and the newest visible version of its key.
  ghost predicate Yields(es: seq<Entry>, snapshot: nat, i: nat) {
    && i < |es| && Visible(es, snapshot, i) && es[i].key.kind.Value?
    && forall j :: 0 <= j < i && Visible(es, snapshot, j) ==> es[j].key.user != es[i].key.user
  }

  ghost predicate GoodList(es: seq<Entry>) {
    StrictlySorted(es) && UniqueVersions(AsSet(es))
  }

  lemma YieldsIsRead(es: seq<Entry>, snapshot: nat, i: nat)
    requires GoodList(es) && Yields(es, snapshot, i)
    ensures Read(AsSet(es), es[i].key.user, snapshot) == Some(es[i].value)
  {
    forall d | d in AsSet(es) && Candidate(d, es[i].key.user, snapshot) ensures d.key.seqno <= es[i].key.seqno {
      var j :| 0 <= j < |es| && es[j] == d;
      assert Visible(es, snapshot, j);
    }
    assert IsNewest(AsSet(es), es[i].key.user, snapshot, es[i]);
    ReadOfNewest(AsSet(es), es[i].key.user, snapshot, es[i]);
  }

  lemma ReadIsYielded(es: seq<Entry>, snapshot: nat, user: UserKey) returns (i: nat)
    requires GoodList(es) && Read(AsSet(es), user, snapshot).Some?
    ensures Yields(es, snapshot, i) && es[i].key.user == user
  {
    var e: Entry :| IsNewest(AsSet(es), user, snapshot, e);
    ReadOfNewest(AsSet(es), user, snapshot, e);
    i :| 0 <= i < |es| && es[i] == e;
    forall j | 0 <= j < i && Visible(es, snapshot, j) ensures es[j].key.user != user {
      assert es[j] in AsSet(es) && es[j].key.Less(es[i].key);
    }
  }

  lemma FirstOfYields(es: seq<Entry>, snapshot: nat, range: Range, i: nat)
    requires GoodList(es) && Yields(es, snapshot, i) && range.Has(es[i].key.user)
    requires forall j :: 0 <= j < i && Yields(es, snapshot, j) ==> !range.Has(es[j].key.user)
    ensures IsFirst(AsSet(es), snapshot, range, Some(Binding(es[i].key.user, es[i].value)))
  {
    YieldsIsRead(es, snapshot, i);
    forall user | range.Has(user) && Read(AsSet(es), user, snapshot).Some? ensures es[i].key.user <= user {
      var j := ReadIsYielded(es, snapshot, user);
      assert i < j ==> es[i].key.Less(es[j].key);
    }
  }

  lemma LastOfYields(es: seq<Entry>, snapshot: nat, range: Range, i: nat)
    requires GoodList(es) && Yields(es, snapshot, i) && range.Has(es[i].key.user)
    requires forall j :: i < j < |es| && Yields(es, snapshot, j) ==> !range.Has(es[j].key.user)
    ensures IsLast(AsSet(es), snapshot, range, Some(Binding(es[i].key.user, es[i].value)))
  {
    YieldsIsRead(es, snapshot, i);
    forall user | range.Has(user) && Read(AsSet(es), user, snapshot).Some? ensures user <= es[i].key.user {
      var j := ReadIsYielded(es, snapshot, user);
      assert j < i ==> es[j].key.Less(es[i].key);
    }
  }

  lemma NothingYielded(es: seq<Entry>, snapshot: nat, range: Range)
    requires GoodList(es)
    requires forall j :: 0 <= j < |es| && Yields(es, snapshot, j) ==> !range.Has(es[j].key.user)
    ensures IsFirst(AsSet(es), snapshot, range, None) && IsLast(AsSet(es), snapshot, range, None)
  {
    forall user | range.Has(user) ensures Read(AsSet(es), user, snapshot) == None {
      if Read(AsSet(es), user, snapshot).Some? {
        var j := ReadIsYielded(es, snapshot, user);
      }
    }
  }

  // ----- scanning forward -----

  predicate Skips(skip: Option<UserKey>, user: UserKey) {
    skip.Some? && user <= skip.value
  }

  lemma UserOrder(es: seq<Entry>, i: nat, j: nat)
    requires GoodList(es) && i <= j < |es|
    ensures es[i].key.user <= es[j].key.user
  {
    assert i < j ==> es[i].key.Less(es[j].key);
  }

  // Entry j, already passed, yields no key in the range and hides only keys being skipped.
  ghost predicate Passed(es: seq<Entry>, snapshot: nat, j: nat, skip: Option<UserKey>, range: Range)
    requires j < |es|
  {
    && (Yields(es, snapshot, j) ==> !range.Has(es[j].key.user))
    && (Visible(es, snapshot, j) ==> !range.Has(es[j].key.user) || Skips(skip, es[j].key.user))
  }

  // Entry j, still to come, is in the range unless its key is being skipped.
  ghost predicate Coming(es: seq<Entry>, snapshot: nat, j: nat, skip: Option<UserKey>, range: Range)
    requires j < |es|
  {
    && (!Skips(skip, es[j].key.user) ==> range.Has(es[j].key.user))
    && (Skips(skip, es[j].key.user) && Yields(es, snapshot, j) ==> !range.Has(es[j].key.user))
    && (Visible(es, snapshot, j) ==> skip.None? || skip.value <= es[j].key.user)
  }

  ghost predicate Ahead(es: seq<Entry>, snapshot: nat, at: nat, skip: Option<UserKey>, range: Range) {
    && at <= |es|
    && (forall j :: 0 <= j < at ==> Passed(es, snapshot, j, skip, range))
    && (forall j :: at <= j < |es| ==> Coming(es, snapshot, j, skip, range))
  }

  // One turn of the forward loop at entry at: either it is the answer, or it can be passed.
  lemma PassOver(es: seq<Entry>, snapshot: nat, at: nat, skip: Option<UserKey>, range: Range)
    requires GoodList(es) && Ahead(es, snapshot, at, skip, range) && at < |es|
    ensures if Visible(es, snapshot, at) && es[at].key.kind.Value? && !Skips(skip, es[at].key.user) then
              && Yields(es, snapshot, at)
              && IsFirst(AsSet(es), snapshot, range, Some(Binding(es[at].key.user, es[at].value)))
            else
              Ahead(es, snapshot, at + 1,
                    if Visible(es, snapshot, at) && es[at].key.kind.Deletion? then Some(es[at].key.user) else skip, range)
  {
    hide IsFirst, GoodList;
    assert Coming(es, snapshot, at, skip, range);
    if Visible(es, snapshot, at) && es[at].key.kind.Value? && !Skips(skip, es[at].key.user) {
      forall j | 0 <= j < at && Visible(es, snapshot, j) ensures es[j].key.user != es[at].key.user {
        UserOrder(es, j, at);
        assert Passed(es, snapshot, j, skip, range);
      }
      forall j | 0 <= j < at && Yields(es, snapshot, j) ensures !range.Has(es[j].key.user) {
        assert Passed(es, snapshot, j, skip, range);
      }
      FirstOfYields(es, snapshot, range, at);
    } else if Visible(es, snapshot, at) && es[at].key.kind.Deletion? {
      PassDeletion(es, snapshot, at, skip, range);
    }
  }

  lemma PassDeletion(es: seq<Entry>, snapshot: nat, at: nat, skip: Option<UserKey>, range: Range)
    requires GoodList(es) && Ahead(es, snapshot, at, skip, range) && at < |es|
    requires Visible(es, snapshot, at) && es[at].key.kind.Deletion?
    ensures Ahead(es, snapshot, at + 1, Some(es[at].key.user), range)
  {
    hide GoodList;
    var user := es[at].key.user;
    assert Coming(es, snapshot, at, skip, range);
    forall j | 0 <= j < at + 1 ensures Passed(es, snapshot, j, Some(user), range) {
      UserOrder(es, j, at);
      assert j < at ==> Passed(es, snapshot, j, skip, range);
    }
    forall j | at + 1 <= j < |es| ensures Coming(es, snapshot, j, Some(user), range) {
      UserOrder(es, at, j);
      assert Coming(es, snapshot, j, skip, range);
    }
  }

  // After a forward step off the entry being shown.
  lemma StepOff(es: seq<Entry>, snapshot: nat, at: nat)
    requires GoodList(es) && Yields(es, snapshot, at)
    ensures Ahead(es, snapshot, at + 1, Some(es[at].key.user), Above(es[at].key.user))
  {
    hide GoodList;
    var user := es[at].key.user;
    forall j | 0 <= j < at + 1 ensures Passed(es, snapshot, j, Some(user), Above(user)) {
      UserOrder(es, j, at);
    }
    forall j | at + 1 <= j < |es| ensures Coming(es, snapshot, j, Some(user), Above(user)) {
      UserOrder(es, at, j);
    }
  }

  lemma NothingAhead(es: seq<Entry>, snapshot: nat, skip: Option<UserKey>, range: Range)
    requires GoodList(es) && Ahead(es, snapshot, |es|, skip, range)
    ensures IsFirst(AsSet(es), snapshot, range, None)
  {
    hide IsFirst, IsLast, GoodList;
    forall j | 0 <= j < |es| && Yields(es, snapshot, j) ensures !range.Has(es[j].key.user) {
      assert Passed(es, snapshot, j, skip, range);
    }
    NothingYielded(es, snapshot, range);
  }

  // ----- scanning backward -----

  // Entry i yields its key, no entry from left up to i is visible, and the entries before left
  // have smaller keys.
  ghost predicate Stops(es: seq<Entry>, snapshot: nat, left: nat, i: nat) {
    && left <= i < |es| && Yields(es, snapshot, i)
    && (forall j :: left <= j < i ==> !Visible(es, snapshot, j))
    && (forall j :: 0 <= j < left ==> es[j].key.user < es[i].key.user)
  }

  // What is known when the entries from left on have been passed, i being the last visible one
  // met and kind its kind; kind is Deletion when there was none.
  ghost predicate Behind(es: seq<Entry>, snapshot: nat, left: nat, kind: Kind, i: nat, range: Range) {
    && left <= i <= |es|
    && (forall j :: 0 <= j < left ==> range.Has(es[j].key.user))
    && (forall j :: left <= j < i ==> !Visible(es, snapshot, j))
    && (forall j :: i < j < |es| && Yields(es, snapshot, j) ==> !range.Has(es[j].key.user))
    && if kind.Value? then
         i < |es| && Visible(es, snapshot, i) && es[i].key.kind.Value? && range.Has(es[i].key.user)
       else
         i < |es| && Yields(es, snapshot, i) ==> !range.Has(es[i].key.user)
  }

  // One turn of the backward loop at entry left - 1.
  lemma PassBack(es: seq<Entry>, snapshot: nat, left: nat, kind: Kind, i: nat, range: Range)
    requires GoodList(es) && Behind(es, snapshot, left, kind, i, range) && left > 0
    ensures !Visible(es, snapshot, left - 1) ==> Behind(es, snapshot, left - 1, kind, i, range)
    ensures Visible(es, snapshot, left - 1) ==>
              if kind.Value? && es[left - 1].key.user < es[i].key.user then Stops(es, snapshot, left, i)
              else Behind(es, snapshot, left - 1, es[left - 1].key.kind, left - 1, range)
  {
    hide GoodList;
    var k := left - 1;
    if Visible(es, snapshot, k) {
      forall j | 0 <= j < k ensures es[j].key.user <= es[k].key.user {
        UserOrder(es, j, k);
      }
      if i < |es| {
        UserOrder(es, k, i);
      }
    }
  }

  lemma PassBackEnds(es: seq<Entry>, snapshot: nat, left: nat, kind: Kind, i: nat, range: Range)
    requires GoodList(es) && Behind(es, snapshot, left, kind, i, range)
    requires left == 0 || (kind.Value? && Stops(es, snapshot, left, i))
    ensures if kind.Value? then
              && Stops(es, snapshot, left, i)
              && IsLast(AsSet(es), snapshot, range, Some(Binding(es[i].key.user, es[i].value)))
            else
              IsLast(AsSet(es), snapshot, range, None)
  {
    hide IsLast;
    if kind.Value? {
      LastOfYields(es, snapshot, range, i);
    } else {
      NothingYielded(es, snapshot, range);
    }
  }

  // Turning round to the forward direction.
  lemma TurnForward(es: seq<Entry>, snapshot: nat, left: nat, i: nat)
    requires GoodList(es) && Stops(es, snapshot, left, i)
    ensures Ahead(es, snapshot, left, Some(es[i].key.user), Above(es[i].key.user))
  {
    hide GoodList;
    var user := es[i].key.user;
    forall j | left <= j < |es| ensures Coming(es, snapshot, j, Some(user), Above(user)) {
      if i <= j {
        UserOrder(es, i, j);
      }
    }
  }

  // No entry from at on has a key before user.
  ghost predicate FromKey(es: seq<Entry>, at: nat, user: UserKey) {
    forall j :: at <= j < |es| ==> user <= es[j].key.user
  }

  lemma UsersRise(es: seq<Entry>, at: nat)
    requires GoodList(es) && at < |es|
    ensures FromKey(es, at, es[at].key.user)
  {
    forall j | at < j < |es| ensures es[at].key.user <= es[j].key.user {
      assert es[at].key.Less(es[j].key);
    }
  }

  lemma OneMoreFromKey(es: seq<Entry>, at: nat, user: UserKey)
    requires at < |es| && FromKey(es, at + 1, user) && user <= es[at].key.user
    ensures FromKey(es, at, user)
  {
  }

  lemma NothingBefore(es: seq<Entry>, snapshot: nat, user: UserKey)
    requires GoodList(es) && FromKey(es, 0, user)
    ensures IsLast(AsSet(es), snapshot, Below(user), None)
  {
    hide IsLast, Yields;
    NothingYielded(es, snapshot, Below(user));
  }

  // What a seek leaves to be looked at.
  lemma SoughtAhead(es: seq<Entry>, snapshot: nat, target: UserKey, at: nat)
    requires GoodList(es) && at == FirstAtOrAfter(es, LookupKey(target, snapshot))
    ensures Ahead(es, snapshot, at, None, From(target))
  {
  }

  lemma NothingSought(es: seq<Entry>, snapshot: nat, target: UserKey)
    requires GoodList(es) && FirstAtOrAfter(es, LookupKey(target, snapshot)) == |es|
    ensures IsFirst(AsSet(es), snapshot, From(target), None)
  {
    assert forall j :: 0 <= j < |es| ==> es[j].key.Less(LookupKey(target, snapshot));
    hide IsFirst, GoodList;
    NothingYielded(es, snapshot, From(target));
  }

  // Turning round to the reverse direction, at the last entry with a smaller key.
  lemma TurnReverse(es: seq<Entry>, snapshot: nat, at: nat, user: UserKey)
    requires GoodList(es) && at < |es| && FromKey(es, at + 1, user) && es[at].key.user < user
    ensures Behind(es, snapshot, at + 1, Deletion, at + 1, Below(user))
  {
    forall j | 0 <= j < at ensures es[j].key.user < user {
      assert es[j].key.Less(es[at].key);
    }
  }

  // Going on in the reverse direction.
  lemma StayReverse(es: seq<Entry>, snapshot: nat, left: nat, i: nat)
    requires GoodList(es) && Stops(es, snapshot, left, i)
    ensures Behind(es, snapshot, left, Deletion, left, Below(es[i].key.user))
  {
    hide GoodList;
    forall j | i < j < |es| ensures es[i].key.user <= es[j].key.user {
      UserOrder(es, i, j);
    }
  }

  // ----- the inner iterator moves over the merged list -----

  lemma NextIsAt(lists: seq<seq<Entry>>, all: seq<Entry>, i: nat, r: Option<Entry>)
    requires StrictlySorted(all) && AsSet(all) == UnionOf(lists) && i < |all| && IsLeast(lists, Region.After(all[i].key), r)
    ensures r == At(all, i + 1)
  {
    hide IsLeast, UnionOf;
    LeastIsAt(lists, all, Region.After(all[i].key), r, i + 1);
  }

  lemma PrevIsAt(lists: seq<seq<Entry>>, all: seq<Entry>, i: nat, r: Option<Entry>)
    requires StrictlySorted(all) && AsSet(all) == UnionOf(lists) && i < |all| && IsGreatest(lists, Region.Before(all[i].key), r)
    ensures r == At(all, if i == 0 then |all| else i - 1)
  {
    hide IsGreatest, UnionOf;
    GreatestIsAt(lists, all, Region.Before(all[i].key), r, i);
  }

  lemma SeekIsAt(lists: seq<seq<Entry>>, all: seq<Entry>, target: IKey, r: Option<Entry>)
    requires StrictlySorted(all) && AsSet(all) == UnionOf(lists) && IsLeast(lists, Region.AtOrAfter(target), r)
    ensures r == At(all, FirstAtOrAfter(all, target))
  {
    hide IsLeast, UnionOf;
    LeastIsAt(lists, all, Region.AtOrAfter(target), r, FirstAtOrAfter(all, target));
  }

  lemma FirstIsAt(lists: seq<seq<Entry>>, all: seq<Entry>, r: Option<Entry>)
    requires StrictlySorted(all) && AsSet(all) == UnionOf(lists) && IsLeast(lists, Everything, r)
    ensures r == At(all, 0)
  {
    hide IsLeast, UnionOf;
    LeastIsAt(lists, all, Everything, r, 0);
  }

  lemma LastIsAt(lists: seq<seq<Entry>>, all: seq<Entry>, r: Option<Entry>)
    requires StrictlySorted(all) && AsSet(all) == UnionOf(lists) && IsGreatest(lists, Everything, r)
    ensures r == At(all, if all == [] then 0 else |all| - 1)
  {
    hide IsGreatest, UnionOf;
    GreatestIsAt(lists, all, Everything, r, |all|);
  }

  // ----- the iterator -----

  class DBIter {
    const sequence: nat
    const iter: MergingIterator
    ghost const list: seq<Entry>
    ghost var at: nat
    var savedKey: Option<UserKey>
    var savedValue: Bytes
    var direction: Direction
    var valid: bool

    // The inner iterator stands on entry at of the merged list, or past its end.
    ghost predicate Standing()
      reads this, iter
    {
      && iter.Valid() && AsSet(list) == UnionOf(iter.lists) && GoodList(list)
      && at <= |list| && iter.Position() == At(list, at)
    }

    predicate InnerValid()
      reads this, iter
      requires Standing()
      ensures InnerValid() <==> at < |list|
    {
      iter.current.Some?
    }

    function Current(): (e: Entry)
      reads this, iter
      requires Standing() && at < |list|
      ensures e == list[at]
    {
      iter.Position().value
    }

    // The number of entries at or before the inner iterator when it moves backwards.
    ghost function Left(): nat
      reads this
    {
      if at < |list| then at + 1 else 0
    }

    // The saved key and value are those of entry i, and no entry from the inner iterator up to
    // i is visible.
    ghost predicate Saved(i: nat)
      reads this
    {
      && Stops(list, sequence, Left(), i)
      && savedKey == Some(list[i].key.user) && savedValue == list[i].value
    }

    ghost predicate Valid()
      reads this, iter
    {
      && Standing()
      && (valid && direction.Forward? ==> Yields(list, sequence, at))
      && (valid && direction.Reverse? ==> exists i :: Saved(i))
    }

    // The key and the value the iterator shows, if it is valid.
    function Position(): Option<Binding>
      reads this, iter
      requires valid ==> if direction.Forward? then Standing() && at < |list| else savedKey.Some?
    {
      if !valid then None
      else if direction.Forward? then Some(Binding(Current().key.user, Current().value))
      else Some(Binding(savedKey.value, savedValue))
    }

    constructor (lists: seq<seq<Entry>>, snapshot: nat)
      requires GoodLists(lists) && UniqueVersions(UnionOf(lists))
      ensures Valid() && AsSet(list) == UnionOf(lists) && sequence == snapshot && Position() == None && fresh(iter)
    {
      ghost var all := SortedUnion(lists);
      list, at, sequence := all, |all|, snapshot;
      iter := new MergingIterator(lists);
      savedKey, savedValue, direction, valid := None, [], Forward, false;
    }

    // ----- moves of the inner iterator -----

    method InnerNext()
      requires Standing() && at < |list|
      modifies this`at, iter
      ensures Standing() && at == old(at) + 1
    {
      hide IsLeast, UniqueVersions, UnionOf, StrictlySorted;
      iter.Next();
      NextIsAt(iter.lists, list, at, iter.Position());
      at := at + 1;
    }

    method InnerPrev()
      requires Standing() && at < |list|
      modifies this`at, iter
      ensures Standing() && at == if old(at) == 0 then |list| else old(at) - 1
    {
      hide IsGreatest, UniqueVersions, UnionOf, StrictlySorted;
      iter.Prev();
      PrevIsAt(iter.lists, list, at, iter.Position());
      at := if at == 0 then |list| else at - 1;
    }

    method InnerSeek(target: IKey)
      requires Standing()
      modifies this`at, iter
      ensures Standing() && at == FirstAtOrAfter(list, target)
    {
      hide IsLeast, UniqueVersions, UnionOf, StrictlySorted;
      iter.Seek(target);
      at := FirstAtOrAfter(list, target);
      SeekIsAt(iter.lists, list, target, iter.Position());
    }

    method InnerSeekToFirst()
      requires Standing()
      modifies this`at, iter
      ensures Standing() && at == 0
    {
      hide IsLeast, UniqueVersions, UnionOf, StrictlySorted;
      iter.SeekToFirst();
      at := 0;
      FirstIsAt(iter.lists, list, iter.Position());
    }

    method InnerSeekToLast()
      requires Standing()
      modifies this`at, iter
      ensures Standing() && at == if list == [] then 0 else |list| - 1
    {
      hide IsGreatest, UniqueVersions, UnionOf, StrictlySorted;
      iter.SeekToLast();
      at := if list == [] then 0 else |list| - 1;
      LastIsAt(iter.lists, list, iter.Position());
    }

    /** From either direction, past any deletions, overwritten versions and versions newer than
        the snapshot, to the least visible key after the current one. */
    method Next()
      requires Valid() && valid
      modifies this, iter
      ensures Valid()
      ensures IsFirst(AsSet(list), sequence, Above(old(Position()).value.key), Position())
    {
      ghost var user := Position().value.key;
      hide IsFirst, Ahead, Yields, Stops, GoodList, UnionOf, AsSet, MergingIterator.Valid, MergingIterator.Position;
      if direction.Reverse? {
        ghost var i: nat :| Saved(i);
        TurnForward(list, sequence, Left(), i);
        TurnAround();
      } else {
        StepOff(list, sequence, at);
        savedKey := Some(Current().key.user);
        InnerNext();
      }
      if !InnerValid() {
        NothingAhead(list, sequence, savedKey, Above(user));
        valid := false;
        savedKey := None;
        return;
      }
      FindNextUserEntry(true, Above(user));
    }

    // Past the entries of the current key, which the inner iterator stands before.
    method TurnAround()
      requires Standing()
      modifies this`direction, this`at, iter
      ensures Standing() && direction.Forward? && at == old(Left())
    {
      hide GoodList, UnionOf, AsSet, MergingIterator.Valid, MergingIterator.Position;
      direction := Forward;
      if !InnerValid() {
        InnerSeekToFirst();
      } else {
        InnerNext();
      }
    }

    method FindNextUserEntry(skipping: bool, ghost range: Range)
      requires Standing() && at < |list| && direction.Forward?
      requires skipping ==> savedKey.Some?
      requires Ahead(list, sequence, at, if skipping then savedKey else None, range)
      modifies this, iter
      ensures Valid() && direction.Forward?
      ensures IsFirst(AsSet(list), sequence, range, Position())
    {
      hide IsFirst, Ahead, Yields, GoodList, UnionOf, MergingIterator.Valid, MergingIterator.Position;
      var skip := skipping;
      while InnerValid()
        invariant Standing() && direction.Forward? && (skip ==> savedKey.Some?)
        invariant Ahead(list, sequence, at, if skip then savedKey else None, range)
        decreases |list| - at
      {
        PassOver(list, sequence, at, if skip then savedKey else None, range);
        var ikey := Current().key;
        if ikey.seqno <= sequence {
          match ikey.kind {
            case Deletion =>
              savedKey := Some(ikey.user);
              skip := true;
            case Value =>
              if skip && ikey.user <= savedKey.value {
              } else {
                valid := true;
                savedKey := None;
                return;
              }
          }
        }
        InnerNext();
      }
      NothingAhead(list, sequence, if skip then savedKey else None, range);
      savedKey := None;
      valid := false;
    }

    /** From either direction, to the greatest visible key before the current one. */
    method Prev()
      requires Valid() && valid
      modifies this, iter
      ensures Valid()
      ensures IsLast(AsSet(list), sequence, Below(old(Position()).value.key), Position())
    {
      ghost var user := Position().value.key;
      hide IsLast, Behind, Yields, GoodList, FromKey, UnionOf, MergingIterator.Valid, MergingIterator.Position;
      if direction.Forward? {
        var before := ScanBack(user);
        if !before {
          return;
        }
      } else {
        ghost var i: nat :| Saved(i);
        StayReverse(list, sequence, Left(), i);
      }
      FindPrevUserEntry(Below(user));
    }

    // Scans backwards until the key changes: to a smaller key, or past the start.
    method ScanBack(ghost user: UserKey) returns (before: bool)
      requires Standing() && at < |list| && list[at].key.user == user
      modifies this, iter
      ensures Standing()
      ensures before ==> direction.Reverse? && Behind(list, sequence, Left(), Deletion, Left(), Below(user))
      ensures !before ==> !valid && IsLast(AsSet(list), sequence, Below(user), None)
    {
      hide IsLast, Behind, Yields, GoodList, FromKey, UnionOf, MergingIterator.Valid, MergingIterator.Position;
      savedKey := Some(Current().key.user);
      UsersRise(list, at);
      while true
        invariant Standing() && at < |list| && savedKey == Some(user)
        invariant FromKey(list, at, user)
        decreases at
      {
        InnerPrev();
        if !InnerValid() {
          valid := false;
          savedKey := None;
          savedValue := [];
          NothingBefore(list, sequence, user);
          return false;
        }
        if Current().key.user < savedKey.value {
          break;
        }
        OneMoreFromKey(list, at, user);
      }
      direction := Reverse;
      TurnReverse(list, sequence, at, user);
      return true;
    }

    method FindPrevUserEntry(ghost range: Range)
      requires Standing() && direction.Reverse?
      requires Behind(list, sequence, Left(), Deletion, Left(), range)
      modifies this, iter
      ensures Valid()
      ensures IsLast(AsSet(list), sequence, range, Position())
    {
      hide IsLast, Behind, Yields, GoodList, UnionOf, MergingIterator.Valid, MergingIterator.Position;
      var valueType := Deletion;
      ghost var i: nat := Left();
      while InnerValid()
        invariant Standing() && direction.Reverse?
        invariant Behind(list, sequence, Left(), valueType, i, range)
        invariant valueType.Value? ==> i < |list| && savedKey == Some(list[i].key.user) && savedValue == list[i].value
        decreases Left()
      {
        PassBack(list, sequence, Left(), valueType, i, range);
        var ikey := Current().key;
        if ikey.seqno <= sequence {
          if valueType != Deletion && ikey.user < savedKey.value {
            break;
          }
          valueType := ikey.kind;
          i := at;
          if valueType == Deletion {
            savedKey := None;
            savedValue := [];
          } else {
            savedKey := Some(ikey.user);
            savedValue := Current().value;
          }
        }
        InnerPrev();
      }
      PassBackEnds(list, sequence, Left(), valueType, i, range);
      if valueType == Deletion {
        valid := false;
        savedKey := None;
        savedValue := [];
        direction := Forward;
      } else {
        valid := true;
        assert Saved(i);
      }
    }

    /** To the least visible key that is not before target. */
    method Seek(target: UserKey)
      requires Valid()
      modifies this, iter
      ensures Valid()
      ensures IsFirst(AsSet(list), sequence, From(target), Position())
    {
      hide IsFirst, IsLast, Yields, Ahead, GoodList, UnionOf, MergingIterator.Valid, MergingIterator.Position;
      direction := Forward;
      savedValue := [];
      savedKey := None;
      InnerSeek(LookupKey(target, sequence));
      if InnerValid() {
        SoughtAhead(list, sequence, target, at);
        FindNextUserEntry(false, From(target));
      } else {
        NothingSought(list, sequence, target);
        valid := false;
      }
    }

    method SeekToFirst()
      requires Valid()
      modifies this, iter
      ensures Valid()
      ensures IsFirst(AsSet(list), sequence, AllKeys, Position())
    {
      hide IsFirst, IsLast, Yields, UnionOf, MergingIterator.Valid, MergingIterator.Position;
      direction := Forward;
      savedValue := [];
      InnerSeekToFirst();
      if InnerValid() {
        FindNextUserEntry(false, AllKeys);
      } else {
        valid := false;
        NothingYielded(list, sequence, AllKeys);
      }
    }

    method SeekToLast()
      requires Valid()
      modifies this, iter
      ensures Valid()
      ensures IsLast(AsSet(list), sequence, AllKeys, Position())
    {
      hide IsFirst, IsLast, Yields, UnionOf, MergingIterator.Valid, MergingIterator.Position;
      direction := Reverse;
      savedValue := [];
      InnerSeekToLast();
      FindPrevUserEntry(AllKeys);
    }
  }
}
