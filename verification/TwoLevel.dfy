/** The two-level iterator: an index leads to blocks or files, which are read one after the other. */
module TwoLevel {
  import opened DbFormat
  import opened Merger

  // The index key of a list separates it from the lists after it.
  ghost predicate Separated(lists: seq<seq<Entry>>, seps: seq<IKey>) {
    && |seps| == |lists|
    && (forall b :: 0 <= b < |lists| ==> StrictlySorted(lists[b]))
    && (forall b, e :: 0 <= b < |lists| && e in lists[b] ==> e.key.AtMost(seps[b]))
    && (forall b, c, e :: 0 <= b < c < |lists| && e in lists[c] ==> seps[b].Less(e.key))
  }

  // Exactly the entries from entry i of list b on are in the region.
  ghost predicate StartsAt(lists: seq<seq<Entry>>, region: Region, b: nat, i: nat) {
    && (forall c, j :: 0 <= c < |lists| && 0 <= j < |lists[c]| ==>
          (region.Allows(lists[c][j].key) <==> c > b || (c == b && j >= i)))
  }

  // Exactly the entries before entry n of list b are in the region.
  ghost predicate EndsAt(lists: seq<seq<Entry>>, region: Region, b: nat, n: nat) {
    && (forall c, j :: 0 <= c < |lists| && 0 <= j < |lists[c]| ==>
          (region.Allows(lists[c][j].key) <==> c < b || (c == b && j < n)))
  }

  function FirstSeparator(seps: seq<IKey>, target: IKey): (b: nat)
    ensures b <= |seps|
    ensures forall c :: 0 <= c < b ==> seps[c].Less(target)
    ensures b < |seps| ==> target.AtMost(seps[b])
  {
    if seps == [] || !seps[0].Less(target) then 0 else 1 + FirstSeparator(seps[1..], target)
  }

  class TwoLevelIterator {
    const lists: seq<seq<Entry>>
    const seps: seq<IKey>
    // The place of the index iterator, and the list that the data iterator was made for.
    var index: nat
    var data: Option<Child>
    var handle: nat

    ghost predicate Valid()
      reads this
    {
      && Separated(lists, seps) && index <= |lists|
      && (data.Some? ==> index < |lists| && handle == index && data.value.list == lists[index] && data.value.at <= |lists[index]|)
      && (data.None? ==> index == |lists|)
    }

    predicate OnEntry()
      reads this
    {
      data.Some? && data.value.Valid()
    }

    function Position(): Option<Entry>
      reads this
    {
      if OnEntry() then Some(data.value.list[data.value.at]) else None
    }

    constructor (lists: seq<seq<Entry>>, seps: seq<IKey>)
      requires Separated(lists, seps)
      ensures Valid() && this.lists == lists && this.seps == seps && Position() == None
    {
      this.lists, this.seps := lists, seps;
      index, data, handle := |lists|, None, 0;
    }

    // Keeps the data iterator if it belongs to the index entry already.
    method InitDataBlock()
      requires Separated(lists, seps) && index <= |lists|
      requires data.Some? ==> handle < |lists| && data.value.list == lists[handle] && data.value.at <= |lists[handle]|
      modifies this`data, this`handle
      ensures Valid()
    {
      if index == |lists| {
        data := None;
      } else if !(data.Some? && handle == index) {
        data := Some(Child(lists[index], |lists[index]|));
        handle := index;
      }
    }

    method Seek(target: IKey)
      requires Valid()
      modifies this
      ensures Valid() && IsLeast(lists, AtOrAfter(target), Position())
    {
      index := FirstSeparator(seps, target);
      InitDataBlock();
      if data.Some? {
        data := Some(data.value.Seek(target));
      }
      SeekStartsAt(lists, seps, target, index);
      SkipEmptyDataBlocksForward(AtOrAfter(target));
    }

    method SeekToFirst()
      requires Valid()
      modifies this
      ensures Valid() && IsLeast(lists, Everything, Position())
    {
      index := 0;
      InitDataBlock();
      if data.Some? {
        data := Some(data.value.SeekToFirst());
      }
      SkipEmptyDataBlocksForward(Everything);
    }

    method SeekToLast()
      requires Valid()
      modifies this
      ensures Valid() && IsGreatest(lists, Everything, Position())
    {
      index := if |lists| == 0 then 0 else |lists| - 1;
      InitDataBlock();
      if data.Some? {
        data := Some(data.value.SeekToLast());
      }
      SkipEmptyDataBlocksBackward(Everything);
    }

    method Next()
      requires Valid() && OnEntry()
      modifies this
      ensures Valid() && IsLeast(lists, After(old(Position()).value.key), Position())
    {
      ghost var e := Position().value;
      SplitAtEntry(lists, seps, index, data.value.at);
      data := Some(data.value.Next());
      SkipEmptyDataBlocksForward(After(e.key));
    }

    method Prev()
      requires Valid() && OnEntry()
      modifies this
      ensures Valid() && IsGreatest(lists, Before(old(Position()).value.key), Position())
    {
      ghost var e := Position().value;
      SplitAtEntry(lists, seps, index, data.value.at);
      data := Some(data.value.Prev());
      SkipEmptyDataBlocksBackward(Before(e.key));
    }

    method SkipEmptyDataBlocksForward(ghost region: Region)
      requires Valid()
      requires StartsAt(lists, region, index, if data.Some? then data.value.at else 0)
      modifies this
      ensures Valid() && IsLeast(lists, region, Position())
    {
      hide Separated;
      while data.None? || !data.value.Valid()
        invariant Valid() && StartsAt(lists, region, index, if data.Some? then data.value.at else 0)
        decreases |lists| - index, data.Some?
      {
        if index == |lists| {
          data := None;
          NothingAfter(lists, region);
          return;
        }
        index := index + 1;
        InitDataBlock();
        if data.Some? {
          data := Some(data.value.SeekToFirst());
        }
      }
      FirstIsLeast(lists, seps, region, index, data.value.at);
    }

    method SkipEmptyDataBlocksBackward(ghost region: Region)
      requires Valid()
      requires data.Some? ==> EndsAt(lists, region, index, if data.value.Valid() then data.value.at + 1 else 0)
      requires data.None? ==> EndsAt(lists, region, 0, 0)
      modifies this
      ensures Valid() && IsGreatest(lists, region, Position())
    {
      hide Separated;
      while data.None? || !data.value.Valid()
        invariant Valid()
        invariant data.Some? ==> EndsAt(lists, region, index, if data.value.Valid() then data.value.at + 1 else 0)
        invariant data.None? ==> EndsAt(lists, region, 0, 0)
        decreases data.Some?, index
      {
        if index == |lists| {
          data := None;
          NothingBefore(lists, region);
          return;
        }
        index := if index == 0 then |lists| else index - 1;
        InitDataBlock();
        if data.Some? {
          data := Some(data.value.SeekToLast());
        }
      }
      LastIsGreatest(lists, seps, region, index, data.value.at);
    }
  }

  lemma NothingAfter(lists: seq<seq<Entry>>, region: Region)
    requires StartsAt(lists, region, |lists|, 0)
    ensures IsLeast(lists, region, None)
  {
    forall d | InUnion(lists, d) ensures !region.Allows(d.key) {
      var c, j := PlaceOf(lists, d);
    }
  }

  lemma NothingBefore(lists: seq<seq<Entry>>, region: Region)
    requires EndsAt(lists, region, 0, 0)
    ensures IsGreatest(lists, region, None)
  {
    forall d | InUnion(lists, d) ensures !region.Allows(d.key) {
      var c, j := PlaceOf(lists, d);
    }
  }

  lemma PlaceOf(lists: seq<seq<Entry>>, d: Entry) returns (c: nat, j: nat)
    requires InUnion(lists, d)
    ensures c < |lists| && j < |lists[c]| && lists[c][j] == d
  {
    c :| 0 <= c < |lists| && d in lists[c];
    j :| 0 <= j < |lists[c]| && lists[c][j] == d;
  }

  // Entries are in order across the lists.
  lemma InOrder(lists: seq<seq<Entry>>, seps: seq<IKey>, b: nat, i: nat, c: nat, j: nat)
    requires Separated(lists, seps) && b < |lists| && i < |lists[b]| && c < |lists| && j < |lists[c]|
    requires b < c || (b == c && i < j)
    ensures lists[b][i].key.Less(lists[c][j].key)
  {
    if b < c {
      assert lists[b][i] in lists[b] && lists[c][j] in lists[c];
      assert lists[b][i].key.AtMost(seps[b]) && seps[b].Less(lists[c][j].key);
    }
  }

  lemma FirstIsLeast(lists: seq<seq<Entry>>, seps: seq<IKey>, region: Region, b: nat, i: nat)
    requires Separated(lists, seps) && b < |lists| && i < |lists[b]| && StartsAt(lists, region, b, i)
    ensures IsLeast(lists, region, Some(lists[b][i]))
  {
    hide Separated;
    assert lists[b][i] in lists[b];
    forall d | InUnion(lists, d) && region.Allows(d.key) ensures lists[b][i].key.AtMost(d.key) {
      var c, j := PlaceOf(lists, d);
      if c > b || j > i {
        InOrder(lists, seps, b, i, c, j);
      }
    }
  }

  lemma LastIsGreatest(lists: seq<seq<Entry>>, seps: seq<IKey>, region: Region, b: nat, i: nat)
    requires Separated(lists, seps) && b < |lists| && i < |lists[b]| && EndsAt(lists, region, b, i + 1)
    ensures IsGreatest(lists, region, Some(lists[b][i]))
  {
    hide Separated;
    assert lists[b][i] in lists[b];
    forall d | InUnion(lists, d) && region.Allows(d.key) ensures d.key.AtMost(lists[b][i].key) {
      var c, j := PlaceOf(lists, d);
      if c < b || j < i {
        InOrder(lists, seps, c, j, b, i);
      }
    }
  }

  lemma SplitAtEntry(lists: seq<seq<Entry>>, seps: seq<IKey>, b: nat, i: nat)
    requires Separated(lists, seps) && b < |lists| && i < |lists[b]|
    ensures StartsAt(lists, After(lists[b][i].key), b, i + 1) && EndsAt(lists, Before(lists[b][i].key), b, i)
  {
    hide Separated;
    forall c, j | 0 <= c < |lists| && 0 <= j < |lists[c]|
      ensures lists[b][i].key.Less(lists[c][j].key) <==> c > b || (c == b && j >= i + 1)
      ensures lists[c][j].key.Less(lists[b][i].key) <==> c < b || (c == b && j < i)
    {
      if c > b || (c == b && j > i) {
        InOrder(lists, seps, b, i, c, j);
      } else if c < b || j < i {
        InOrder(lists, seps, c, j, b, i);
      }
    }
  }

  lemma SeekStartsAt(lists: seq<seq<Entry>>, seps: seq<IKey>, target: IKey, b: nat)
    requires Separated(lists, seps) && b == FirstSeparator(seps, target)
    ensures StartsAt(lists, AtOrAfter(target), b, if b < |lists| then FirstAtOrAfter(lists[b], target) else 0)
  {
    var i := if b < |lists| then FirstAtOrAfter(lists[b], target) else 0;
    forall c, j | 0 <= c < |lists| && 0 <= j < |lists[c]|
      ensures target.AtMost(lists[c][j].key) <==> c > b || (c == b && j >= i)
    {
      assert lists[c][j] in lists[c];
      if c > b {
        assert seps[b].Less(lists[c][j].key) && target.AtMost(seps[b]);
      } else if c < b {
        assert lists[c][j].key.AtMost(seps[c]) && seps[c].Less(target);
      } else if j > i {
        InOrder(lists, seps, c, i, c, j);
      }
    }
  }
}
