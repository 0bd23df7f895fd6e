/** The merging iterator: a cursor over the sorted union of its children. */
module Merger {
  import opened DbFormat

  // A child iterator over a sorted list; at == |list| means not valid.
  datatype Child = Child(list: seq<Entry>, at: nat) {
    predicate Valid() {
      at < |list|
    }

    function Key(): IKey
      requires Valid()
    {
      list[at].key
    }

    function SeekToFirst(): Child {
      Child(list, 0)
    }

    function SeekToLast(): Child {
      Child(list, if list == [] then 0 else |list| - 1)
    }

    function Seek(target: IKey): Child {
      Child(list, FirstAtOrAfter(list, target))
    }

    function Next(): Child
      requires Valid()
    {
      Child(list, at + 1)
    }

    function Prev(): Child
      requires Valid()
    {
      Child(list, if at == 0 then |list| else at - 1)
    }

    // Repositioning on a switch to the forward direction.
    function After(key: IKey): Child {
      var c := Seek(key);
      if c.Valid() && c.Key() == key then c.Next() else c
    }

    // Repositioning on a switch to the reverse direction.
    function Before(key: IKey): Child {
      var c := Seek(key);
      if c.Valid() then c.Prev() else c.SeekToLast()
    }
  }

  datatype Direction = Forward | Reverse

  ghost predicate InUnion(lists: seq<seq<Entry>>, e: Entry) {
    exists i :: 0 <= i < |lists| && e in lists[i]
  }

  ghost predicate GoodLists(lists: seq<seq<Entry>>) {
    && (forall i :: 0 <= i < |lists| ==> StrictlySorted(lists[i]))
    && forall i, j, d, e :: 0 <= i < j < |lists| && d in lists[i] && e in lists[j] ==> d.key != e.key
  }

  // The first p entries are before key, the others after it.
  ghost predicate Splits(list: seq<Entry>, p: nat, key: IKey) {
    && p <= |list|
    && (forall j :: 0 <= j < p ==> list[j].key.Less(key))
    && (forall j :: p <= j < |list| ==> key.Less(list[j].key))
  }

  // Where a child that is not current stands, seen from the current key.
  ghost predicate Beside(c: Child, key: IKey, d: Direction) {
    if d.Forward? then Splits(c.list, c.at, key)
    else (c.at == |c.list| && Splits(c.list, 0, key)) || (c.at < |c.list| && Splits(c.list, c.at + 1, key))
  }

  // ----- the abstract cursor: an entry of the union, or past the end -----

  // The part of the key space that a move looks at.
  datatype Region = Everything | AtOrAfter(key: IKey) | After(key: IKey) | Before(key: IKey) {
    ghost predicate Allows(k: IKey) {
      match this
      case Everything => true
      case AtOrAfter(key) => key.AtMost(k)
      case After(key) => key.Less(k)
      case Before(key) => k.Less(key)
    }
  }

  ghost predicate IsLeast(lists: seq<seq<Entry>>, region: Region, r: Option<Entry>) {
    match r
    case Some(e) => InUnion(lists, e) && region.Allows(e.key) && forall d :: InUnion(lists, d) && region.Allows(d.key) ==> e.key.AtMost(d.key)
    case None => forall d :: InUnion(lists, d) ==> !region.Allows(d.key)
  }

  ghost predicate IsGreatest(lists: seq<seq<Entry>>, region: Region, r: Option<Entry>) {
    match r
    case Some(e) => InUnion(lists, e) && region.Allows(e.key) && forall d :: InUnion(lists, d) && region.Allows(d.key) ==> d.key.AtMost(e.key)
    case None => forall d :: InUnion(lists, d) ==> !region.Allows(d.key)
  }

  class MergingIterator {
    ghost const lists: seq<seq<Entry>>
    var children: seq<Child>
    var current: Option<nat>
    var direction: Direction

    ghost predicate Valid()
      reads this
    {
      && GoodLists(lists)
      && |children| == |lists|
      && (forall i :: 0 <= i < |lists| ==> children[i].list == lists[i] && children[i].at <= |lists[i]|)
      && (current.Some? ==>
            && current.value < |children| && children[current.value].Valid()
            && forall i :: 0 <= i < |children| && i != current.value ==>
                 Beside(children[i], children[current.value].Key(), direction))
    }

    // The entry the iterator stands on.
    function Position(): Option<Entry>
      reads this
      requires current.Some? ==> current.value < |children| && children[current.value].Valid()
    {
      if current.Some? then Some(children[current.value].list[children[current.value].at]) else None
    }

    constructor (children: seq<seq<Entry>>)
      requires GoodLists(children)
      ensures Valid() && lists == children && Position() == None
    {
      lists := children;
      this.children := seq(|children|, i requires 0 <= i < |children| => Child(children[i], |children[i]|));
      current := None;
      direction := Forward;
    }

    method SeekToFirst()
      requires Valid()
      modifies this
      ensures Valid() && IsLeast(lists, Everything, Position())
    {
      for i := 0 to |children|
        invariant |children| == |lists|
        invariant forall j :: 0 <= j < |lists| ==> children[j].list == lists[j]
        invariant forall j :: 0 <= j < i ==> children[j].at == 0
      {
        children := children[i := children[i].SeekToFirst()];
      }
      direction := Forward;
      FindSmallest(Everything);
    }

    method SeekToLast()
      requires Valid()
      modifies this
      ensures Valid() && IsGreatest(lists, Everything, Position())
    {
      for i := 0 to |children|
        invariant |children| == |lists|
        invariant forall j :: 0 <= j < |lists| ==> children[j].list == lists[j]
        invariant forall j :: 0 <= j < i ==> children[j].at == if |lists[j]| == 0 then 0 else |lists[j]| - 1
      {
        children := children[i := children[i].SeekToLast()];
      }
      direction := Reverse;
      FindLargest(Everything);
    }

    method Seek(target: IKey)
      requires Valid()
      modifies this
      ensures Valid() && IsLeast(lists, AtOrAfter(target), Position())
    {
      for i := 0 to |children|
        invariant |children| == |lists|
        invariant forall j :: 0 <= j < |lists| ==> children[j].list == lists[j]
        invariant forall j :: 0 <= j < i ==> children[j].at == FirstAtOrAfter(lists[j], target)
      {
        children := children[i := children[i].Seek(target)];
      }
      direction := Forward;
      forall i | 0 <= i < |children| ensures StartsAllowed(children[i], AtOrAfter(target)) {
        SeekStarts(lists[i], target);
      }
      FindSmallest(AtOrAfter(target));
    }

    /** The least entry of the union after the current one, from either direction. */
    method Next()
      requires Valid() && current.Some?
      modifies this
      ensures Valid()
      ensures IsLeast(lists, After(old(Position()).value.key), Position())
    {
      hide Beside, Splits, IsLeast, StrictlySorted, StartsAllowed;
      var c := current.value;
      var key := children[c].Key();
      if direction != Forward {
        for i := 0 to |children|
          invariant |children| == |lists| && current == Some(c) && c < |children|
          invariant forall j :: 0 <= j < |lists| ==> children[j].list == lists[j] && children[j].at <= |lists[j]|
          invariant children[c].Valid() && children[c].Key() == key && children[c] == old(children)[c]
          invariant forall j :: 0 <= j < i && j != c ==> Beside(children[j], key, Forward)
        {
          if i != c {
            RepositionedBeside(lists, c, i, key, children[c].at);
            children := children[i := children[i].After(key)];
          }
        }
        direction := Forward;
      }
      children := children[c := children[c].Next()];
      forall i | 0 <= i < |children| ensures StartsAllowed(children[i], After(key)) {
        if i == c {
          CurrentStarts(Child(lists[c], old(children[c].at)), key);
        } else {
          SplitStarts(children[i], key);
        }
      }
      FindSmallest(After(key));
    }

    /** The greatest entry of the union before the current one, from either direction. */
    method Prev()
      requires Valid() && current.Some?
      modifies this
      ensures Valid()
      ensures IsGreatest(lists, Before(old(Position()).value.key), Position())
    {
      hide Beside, Splits, IsGreatest, StrictlySorted, EndsAllowed;
      var c := current.value;
      var key := children[c].Key();
      if direction != Reverse {
        for i := 0 to |children|
          invariant |children| == |lists| && current == Some(c) && c < |children|
          invariant forall j :: 0 <= j < |lists| ==> children[j].list == lists[j] && children[j].at <= |lists[j]|
          invariant children[c].Valid() && children[c].Key() == key && children[c] == old(children)[c]
          invariant forall j :: 0 <= j < i && j != c ==> Beside(children[j], key, Reverse)
        {
          if i != c {
            RepositionedBeside(lists, c, i, key, children[c].at);
            children := children[i := children[i].Before(key)];
          }
        }
        direction := Reverse;
      }
      children := children[c := children[c].Prev()];
      forall i | 0 <= i < |children| ensures EndsAllowed(children[i], Before(key)) {
        if i == c {
          CurrentEnds(Child(lists[c], old(children[c].at)), key);
        } else {
          SplitEnds(children[i], key);
        }
      }
      FindLargest(Before(key));
    }

    method FindSmallest(ghost region: Region)
      requires GoodLists(lists) && |children| == |lists| && direction == Forward && !region.Before?
      requires forall i :: 0 <= i < |lists| ==> children[i].list == lists[i] && StartsAllowed(children[i], region)
      modifies this`current
      ensures Valid() && IsLeast(lists, region, Position())
    {
      var smallest: Option<nat> := None;
      for i := 0 to |children|
        invariant smallest.None? ==> forall j :: 0 <= j < i ==> !children[j].Valid()
        invariant smallest.Some? ==> smallest.value < i && children[smallest.value].Valid()
        invariant smallest.Some? ==> forall j :: 0 <= j < i && children[j].Valid() ==> children[smallest.value].Key().AtMost(children[j].Key())
      {
        var child := children[i];
        if child.Valid() {
          if smallest.None? {
            smallest := Some(i);
          } else if child.Key().Less(children[smallest.value].Key()) {
            smallest := Some(i);
          }
        }
      }
      current := smallest;
      assert IsSmallestChild(lists, children, region, smallest);
      hide IsSmallestChild, IsLeast, Beside;
      SmallestIsLeast(lists, children, region, smallest);
      forall i | smallest.Some? && 0 <= i < |children| && i != smallest.value
        ensures Beside(children[i], children[smallest.value].Key(), Forward)
      {
        OthersAfterSmallest(lists, children, region, smallest.value, i);
      }
    }

    method FindLargest(ghost region: Region)
      requires GoodLists(lists) && |children| == |lists| && direction == Reverse && (region.Before? || region.Everything?)
      requires forall i :: 0 <= i < |lists| ==> children[i].list == lists[i] && EndsAllowed(children[i], region)
      modifies this`current
      ensures Valid() && IsGreatest(lists, region, Position())
    {
      var largest: Option<nat> := None;
      var i := |children|;
      while i > 0
        invariant 0 <= i <= |children|
        invariant largest.None? ==> forall j :: i <= j < |children| ==> !children[j].Valid()
        invariant largest.Some? ==> i <= largest.value < |children| && children[largest.value].Valid()
        invariant largest.Some? ==> forall j :: i <= j < |children| && children[j].Valid() ==> children[j].Key().AtMost(children[largest.value].Key())
      {
        i := i - 1;
        var child := children[i];
        if child.Valid() {
          if largest.None? {
            largest := Some(i);
          } else if children[largest.value].Key().Less(child.Key()) {
            largest := Some(i);
          }
        }
      }
      current := largest;
      assert IsLargestChild(lists, children, region, largest);
      hide IsLargestChild, IsGreatest, Beside;
      LargestIsGreatest(lists, children, region, largest);
      forall i | largest.Some? && 0 <= i < |children| && i != largest.value
        ensures Beside(children[i], children[largest.value].Key(), Reverse)
      {
        OthersBeforeLargest(lists, children, region, largest.value, i);
      }
    }
  }

  // The allowed entries of the child are those from its position on.
  ghost predicate StartsAllowed(c: Child, region: Region) {
    && c.at <= |c.list|
    && (forall j :: 0 <= j < c.at ==> !region.Allows(c.list[j].key))
    && (forall j :: c.at <= j < |c.list| ==> region.Allows(c.list[j].key))
  }

  // The allowed entries of the child are those up to its position.
  ghost predicate EndsAllowed(c: Child, region: Region) {
    && c.at <= |c.list|
    && (c.at == |c.list| ==> forall j :: 0 <= j < |c.list| ==> !region.Allows(c.list[j].key))
    && (c.at < |c.list| ==> forall j :: 0 <= j < |c.list| ==> (region.Allows(c.list[j].key) <==> j <= c.at))
  }

  lemma SeekStarts(list: seq<Entry>, target: IKey)
    requires StrictlySorted(list)
    ensures StartsAllowed(Child(list, FirstAtOrAfter(list, target)), AtOrAfter(target))
  {
    var i := FirstAtOrAfter(list, target);
    forall j | i < j < |list| ensures target.AtMost(list[j].key) {
      assert list[i].key.Less(list[j].key);
    }
  }

  lemma AwayFromCurrent(lists: seq<seq<Entry>>, c: nat, i: nat, key: IKey, at: nat)
    requires GoodLists(lists) && c < |lists| && i < |lists| && i != c
    requires at < |lists[c]| && lists[c][at].key == key
    ensures forall e :: e in lists[i] ==> e.key != key
  {
    assert lists[c][at] in lists[c];
  }

  lemma SeekSplits(list: seq<Entry>, key: IKey)
    requires StrictlySorted(list) && forall e :: e in list ==> e.key != key
    ensures Splits(list, FirstAtOrAfter(list, key), key)
  {
    SeekStarts(list, key);
    forall j | FirstAtOrAfter(list, key) <= j < |list| ensures key.Less(list[j].key) {
      assert list[j] in list;
    }
  }

  lemma RepositionedBeside(lists: seq<seq<Entry>>, c: nat, i: nat, key: IKey, at: nat)
    requires GoodLists(lists) && c < |lists| && i < |lists| && i != c
    requires at < |lists[c]| && lists[c][at].key == key
    ensures forall p :: Beside(Child(lists[i], p).After(key), key, Forward)
    ensures forall p :: Beside(Child(lists[i], p).Before(key), key, Reverse)
  {
    AwayFromCurrent(lists, c, i, key, at);
    SeekSplits(lists[i], key);
  }

  lemma SplitStarts(c: Child, key: IKey)
    requires Beside(c, key, Forward)
    ensures StartsAllowed(c, After(key))
  {
  }

  lemma SplitEnds(c: Child, key: IKey)
    requires Beside(c, key, Reverse)
    ensures EndsAllowed(c, Before(key))
  {
  }

  lemma CurrentStarts(c: Child, key: IKey)
    requires StrictlySorted(c.list) && c.Valid() && c.Key() == key
    ensures StartsAllowed(c.Next(), After(key))
  {
  }

  lemma CurrentEnds(c: Child, key: IKey)
    requires StrictlySorted(c.list) && c.Valid() && c.Key() == key
    ensures EndsAllowed(c.Prev(), Before(key))
  {
  }

  // smallest is the valid child with the least key, if any child is valid.
  ghost predicate IsSmallestChild(lists: seq<seq<Entry>>, children: seq<Child>, region: Region, smallest: Option<nat>) {
    && |children| == |lists| && !region.Before?
    && (forall i :: 0 <= i < |lists| ==> children[i].list == lists[i] && StartsAllowed(children[i], region))
    && (smallest.None? ==> forall j :: 0 <= j < |children| ==> !children[j].Valid())
    && (smallest.Some? ==>
          && smallest.value < |children| && children[smallest.value].Valid()
          && forall j :: 0 <= j < |children| && children[j].Valid() ==> children[smallest.value].Key().AtMost(children[j].Key()))
  }

  lemma SmallestIsLeast(lists: seq<seq<Entry>>, children: seq<Child>, region: Region, smallest: Option<nat>)
    requires GoodLists(lists) && IsSmallestChild(lists, children, region, smallest)
    ensures smallest.None? ==> IsLeast(lists, region, None)
    ensures smallest.Some? ==> IsLeast(lists, region, Some(children[smallest.value].list[children[smallest.value].at]))
  {
    hide StrictlySorted, StartsAllowed;
    forall d | InUnion(lists, d) && region.Allows(d.key)
      ensures smallest.Some? && children[smallest.value].Key().AtMost(d.key)
    {
      var i :| 0 <= i < |lists| && d in lists[i];
      FirstAllowed(children[i], region, d);
    }
    if smallest.Some? {
      var c := children[smallest.value];
      assert c.list[c.at] in lists[smallest.value];
      StartAllowed(c, region);
    }
  }

  lemma OthersAfterSmallest(lists: seq<seq<Entry>>, children: seq<Child>, region: Region, c: nat, i: nat)
    requires GoodLists(lists) && IsSmallestChild(lists, children, region, Some(c))
    requires i < |children| && i != c
    ensures Beside(children[i], children[c].Key(), Forward)
  {
    hide Beside, StrictlySorted, StartsAllowed;
    var key := children[c].Key();
    AwayFromCurrent(lists, c, i, key, children[c].at);
    StartAllowed(children[c], region);
    BesideSmallest(children[i], key, region);
  }

  lemma StartAllowed(child: Child, region: Region)
    requires StartsAllowed(child, region) && child.Valid()
    ensures region.Allows(child.Key())
  {
  }

  lemma FirstAllowed(child: Child, region: Region, d: Entry)
    requires StrictlySorted(child.list) && StartsAllowed(child, region) && !region.Before?
    requires d in child.list && region.Allows(d.key)
    ensures child.Valid() && child.Key().AtMost(d.key)
  {
    var j :| 0 <= j < |child.list| && child.list[j] == d;
    assert child.at < j ==> child.list[child.at].key.Less(child.list[j].key);
  }

  lemma BesideSmallest(child: Child, key: IKey, region: Region)
    requires StrictlySorted(child.list) && StartsAllowed(child, region) && region.Allows(key) && !region.Before?
    requires forall e :: e in child.list ==> e.key != key
    requires child.Valid() ==> key.AtMost(child.Key())
    ensures Beside(child, key, Forward)
  {
    forall j | child.at <= j < |child.list| ensures key.Less(child.list[j].key) {
      assert child.list[j] in child.list;
      assert child.at < j ==> child.list[child.at].key.Less(child.list[j].key);
    }
  }

  // largest is the valid child with the greatest key, if any child is valid.
  ghost predicate IsLargestChild(lists: seq<seq<Entry>>, children: seq<Child>, region: Region, largest: Option<nat>) {
    && |children| == |lists| && (region.Before? || region.Everything?)
    && (forall i :: 0 <= i < |lists| ==> children[i].list == lists[i] && EndsAllowed(children[i], region))
    && (largest.None? ==> forall j :: 0 <= j < |children| ==> !children[j].Valid())
    && (largest.Some? ==>
          && largest.value < |children| && children[largest.value].Valid()
          && forall j :: 0 <= j < |children| && children[j].Valid() ==> children[j].Key().AtMost(children[largest.value].Key()))
  }

  lemma LargestIsGreatest(lists: seq<seq<Entry>>, children: seq<Child>, region: Region, largest: Option<nat>)
    requires GoodLists(lists) && IsLargestChild(lists, children, region, largest)
    ensures largest.None? ==> IsGreatest(lists, region, None)
    ensures largest.Some? ==> IsGreatest(lists, region, Some(children[largest.value].list[children[largest.value].at]))
  {
    hide StrictlySorted, EndsAllowed;
    forall d | InUnion(lists, d) && region.Allows(d.key)
      ensures largest.Some? && d.key.AtMost(children[largest.value].Key())
    {
      var i :| 0 <= i < |lists| && d in lists[i];
      AllowedBeforeEnd(children[i], region, d);
    }
    if largest.Some? {
      var c := children[largest.value];
      assert c.list[c.at] in lists[largest.value];
      EndAllowed(c, region);
    }
  }

  lemma OthersBeforeLargest(lists: seq<seq<Entry>>, children: seq<Child>, region: Region, c: nat, i: nat)
    requires GoodLists(lists) && IsLargestChild(lists, children, region, Some(c))
    requires i < |children| && i != c
    ensures Beside(children[i], children[c].Key(), Reverse)
  {
    hide Beside, StrictlySorted, EndsAllowed;
    var key := children[c].Key();
    AwayFromCurrent(lists, c, i, key, children[c].at);
    EndAllowed(children[c], region);
    BesideLargest(children[i], key, region);
  }

  lemma EndAllowed(child: Child, region: Region)
    requires EndsAllowed(child, region) && child.Valid()
    ensures region.Allows(child.Key())
  {
  }

  lemma AllowedBeforeEnd(child: Child, region: Region, d: Entry)
    requires StrictlySorted(child.list) && EndsAllowed(child, region) && d in child.list && region.Allows(d.key)
    ensures child.Valid() && d.key.AtMost(child.Key())
  {
    var j :| 0 <= j < |child.list| && child.list[j] == d;
    assert j < child.at && child.Valid() ==> child.list[j].key.Less(child.list[child.at].key);
  }

  lemma BesideLargest(child: Child, key: IKey, region: Region)
    requires StrictlySorted(child.list) && EndsAllowed(child, region) && region.Allows(key) && (region.Before? || region.Everything?)
    requires forall e :: e in child.list ==> e.key != key
    requires child.Valid() ==> child.Key().AtMost(key)
    ensures Beside(child, key, Reverse)
  {
    forall j | 0 <= j <= child.at && child.Valid() ensures child.list[j].key.Less(key) {
      assert child.list[j] in child.list;
      assert j < child.at ==> child.list[j].key.Less(child.list[child.at].key);
    }
  }

  ghost function UnionOf(lists: seq<seq<Entry>>): set<Entry> {
    set i, e | 0 <= i < |lists| && e in lists[i] :: e
  }

  // all lists the union up to, and without, the entry the iterator stands on.
  ghost predicate ReadUpTo(lists: seq<seq<Entry>>, all: seq<Entry>, position: Option<Entry>) {
    && StrictlySorted(all)
    && (forall e :: e in all ==> InUnion(lists, e))
    && match position
       case Some(p) => InUnion(lists, p) && forall e :: InUnion(lists, e) ==> (e in all <==> e.key.Less(p.key))
       case None => forall e :: InUnion(lists, e) ==> e in all
  }

  ghost function Unread(lists: seq<seq<Entry>>, all: seq<Entry>): nat {
    |UnionOf(lists) - AsSet(all)|
  }

  /** Stepping through the merging iterator from the first entry to the last lists the union
      in order. */
  method ReadAll(lists: seq<seq<Entry>>) returns (all: seq<Entry>)
    requires GoodLists(lists)
    ensures StrictlySorted(all) && AsSet(all) == UnionOf(lists)
  {
    var iter := new MergingIterator(lists);
    iter.SeekToFirst();
    all := [];
    FirstRead(lists, iter.Position());
    while iter.current.Some?
      invariant iter.Valid() && fresh(iter) && iter.lists == lists
      invariant ReadUpTo(lists, all, iter.Position())
      decreases Unread(lists, all)
    {
      hide GoodLists, StrictlySorted, ReadUpTo, IsLeast, Unread;
      var e := iter.Position().value;
      iter.Next();
      ReadStep(lists, all, e, iter.Position());
      all := all + [e];
    }
    AllRead(lists, all);
  }

  lemma FirstRead(lists: seq<seq<Entry>>, first: Option<Entry>)
    requires IsLeast(lists, Everything, first)
    ensures ReadUpTo(lists, [], first)
  {
  }

  lemma AllRead(lists: seq<seq<Entry>>, all: seq<Entry>)
    requires ReadUpTo(lists, all, None)
    ensures AsSet(all) == UnionOf(lists)
  {
    forall e ensures e in UnionOf(lists) <==> InUnion(lists, e) {
    }
  }

  lemma ReadStep(lists: seq<seq<Entry>>, all: seq<Entry>, e: Entry, next: Option<Entry>)
    requires GoodLists(lists) && ReadUpTo(lists, all, Some(e)) && IsLeast(lists, After(e.key), next)
    ensures ReadUpTo(lists, all + [e], next)
    ensures Unread(lists, all + [e]) < Unread(lists, all)
  {
    hide GoodLists, StrictlySorted, Unread;
    UnionKeysIdentify(lists);
    assert forall d :: d in all ==> d.key.Less(e.key);
    SortedAppend(all, e);
    UnreadShrinks(lists, all, e);
    forall d | InUnion(lists, d) ensures d in all + [e] <==> next.None? || d.key.Less(next.value.key) {
      assert d in all + [e] <==> d.key.Less(e.key) || d.key == e.key;
    }
  }

  lemma UnreadShrinks(lists: seq<seq<Entry>>, all: seq<Entry>, e: Entry)
    requires InUnion(lists, e) && e !in all
    ensures Unread(lists, all + [e]) < Unread(lists, all)
  {
    assert e in UnionOf(lists) && e !in AsSet(all) && e in AsSet(all + [e]);
    assert forall d :: d in AsSet(all) ==> d in AsSet(all + [e]);
    SubsetSize(UnionOf(lists) - AsSet(all + [e]), UnionOf(lists) - AsSet(all));
  }

  lemma SortedAppend(all: seq<Entry>, e: Entry)
    requires StrictlySorted(all) && forall d :: d in all ==> d.key.Less(e.key)
    ensures StrictlySorted(all + [e])
  {
    forall i | 0 <= i < |all| ensures all[i].key.Less(e.key) {
      assert all[i] in all;
    }
  }

  lemma UnionKeysIdentify(lists: seq<seq<Entry>>)
    requires GoodLists(lists)
    ensures forall d, e :: InUnion(lists, d) && InUnion(lists, e) && d.key == e.key ==> d == e
  {
    forall d, e | InUnion(lists, d) && InUnion(lists, e) && d.key == e.key ensures d == e {
      var i :| 0 <= i < |lists| && d in lists[i];
      var j :| 0 <= j < |lists| && e in lists[j];
      if i == j {
        SortedKeysIdentify(lists[i], d, e);
      }
    }
  }

  lemma SortedKeysIdentify(list: seq<Entry>, d: Entry, e: Entry)
    requires StrictlySorted(list) && d in list && e in list && d.key == e.key
    ensures d == e
  {
    var k :| 0 <= k < |list| && list[k] == d;
    var l :| 0 <= l < |list| && list[l] == e;
  }

  // ----- the sorted list that the cursor moves over -----

  ghost predicate KeysIdentify(entries: set<Entry>) {
    forall d, e :: d in entries && e in entries && d.key == e.key ==> d == e
  }

  lemma {:induction false} GreatestEntry(entries: set<Entry>) returns (g: Entry)
    requires entries != {}
    ensures g in entries && forall d :: d in entries ==> d.key.AtMost(g.key)
    decreases entries
  {
    var e :| e in entries;
    g := e;
    if entries != {e} {
      assert entries - {e} != {} by {
        assert entries == entries - {e} + {e};
      }
      var h := GreatestEntry(entries - {e});
      g := if e.key.Less(h.key) then h else e;
      forall d | d in entries ensures d.key.AtMost(g.key) {
        assert d == e || d in entries - {e};
      }
    }
  }

  lemma {:induction false} SortedSet(entries: set<Entry>) returns (all: seq<Entry>)
    requires KeysIdentify(entries)
    ensures StrictlySorted(all) && AsSet(all) == entries
    decreases entries
  {
    all := [];
    if entries != {} {
      var g := GreatestEntry(entries);
      var rest := SortedSet(entries - {g});
      forall d | d in rest ensures d.key.Less(g.key) {
        assert d in AsSet(rest) && d.key.AtMost(g.key) && d.key != g.key;
      }
      SortedAppend(rest, g);
      all := rest + [g];
      forall e ensures e in AsSet(all) <==> e in entries {
        assert e in AsSet(rest) <==> e in entries - {g};
      }
    }
  }

  /** The union of the lists in order. */
  lemma SortedUnion(lists: seq<seq<Entry>>) returns (all: seq<Entry>)
    requires GoodLists(lists)
    ensures StrictlySorted(all) && AsSet(all) == UnionOf(lists)
  {
    UnionKeysIdentify(lists);
    hide GoodLists;
    all := SortedSet(UnionOf(lists));
  }

  lemma InSorted(lists: seq<seq<Entry>>, all: seq<Entry>, e: Entry)
    requires AsSet(all) == UnionOf(lists)
    ensures InUnion(lists, e) <==> exists i :: 0 <= i < |all| && all[i] == e
  {
    assert InUnion(lists, e) <==> e in UnionOf(lists);
    assert e in AsSet(all) <==> e in all;
  }

  // The entry of the list at index i, past the end none.
  function At(all: seq<Entry>, i: nat): Option<Entry> {
    if i < |all| then Some(all[i]) else None
  }

  /** The least entry of a part of the keys is the first of the list that lies in it. */
  lemma LeastIsAt(lists: seq<seq<Entry>>, all: seq<Entry>, region: Region, r: Option<Entry>, i: nat)
    requires StrictlySorted(all) && AsSet(all) == UnionOf(lists) && i <= |all| && IsLeast(lists, region, r)
    requires forall j :: 0 <= j < i ==> !region.Allows(all[j].key)
    requires i < |all| ==> region.Allows(all[i].key)
    ensures r == At(all, i)
  {
    hide UnionOf;
    if i < |all| {
      InSorted(lists, all, all[i]);
      assert InUnion(lists, all[i]);
    }
    if r.Some? {
      InSorted(lists, all, r.value);
      var m :| 0 <= m < |all| && all[m] == r.value;
      assert m > i ==> all[i].key.Less(all[m].key);
    }
  }

  /** The greatest entry of a part of the keys is the last of the list that lies in it. */
  lemma GreatestIsAt(lists: seq<seq<Entry>>, all: seq<Entry>, region: Region, r: Option<Entry>, n: nat)
    requires StrictlySorted(all) && AsSet(all) == UnionOf(lists) && n <= |all| && IsGreatest(lists, region, r)
    requires forall j :: n <= j < |all| ==> !region.Allows(all[j].key)
    requires n > 0 ==> region.Allows(all[n - 1].key)
    ensures r == if n > 0 then Some(all[n - 1]) else None
  {
    hide UnionOf;
    if n > 0 {
      InSorted(lists, all, all[n - 1]);
      assert InUnion(lists, all[n - 1]);
    }
    if r.Some? {
      InSorted(lists, all, r.value);
      var m :| 0 <= m < |all| && all[m] == r.value;
      assert m < n - 1 ==> all[m].key.Less(all[n - 1].key);
    }
  }
}
