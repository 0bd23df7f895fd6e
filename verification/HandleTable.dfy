/** The chained hash table of the cache. */
module HandleTable {
  import opened DbFormat
  import opened Coding

  // A cached handle is found by its key and the hash of the key.
  type Key = (Bytes, Word)

  datatype Slot = Slot(key: Key, id: nat)

  type Buckets = seq<seq<Slot>>

  // hash & (length - 1), for a length that is a power of two.
  function BucketOf(key: Key, length: nat): (r: nat)
    requires length > 0
    ensures r < length
  {
    key.1 % length
  }

  ghost predicate Holds(chain: seq<Slot>, key: Key) {
    exists j :: 0 <= j < |chain| && chain[j].key == key
  }

  ghost predicate DistinctKeys(chain: seq<Slot>) {
    forall i, j :: 0 <= i < j < |chain| ==> chain[i].key != chain[j].key
  }

  // The chain of a bucket holds exactly the entries that hash to it, each once.
  ghost predicate ChainFor(chain: seq<Slot>, b: nat, length: nat, contents: map<Key, nat>)
    requires b < length
  {
    && DistinctKeys(chain)
    && (forall j :: 0 <= j < |chain| ==>
          BucketOf(chain[j].key, length) == b && chain[j].key in contents && contents[chain[j].key] == chain[j].id)
    && (forall key :: key in contents && BucketOf(key, length) == b ==> Holds(chain, key))
  }

  ghost predicate Represents(list: Buckets, contents: map<Key, nat>) {
    && |list| > 0
    && forall b :: 0 <= b < |list| ==> ChainFor(list[b], b, |list|, contents)
  }

  function Find(contents: map<Key, nat>, key: Key): Option<nat> {
    if key in contents then Some(contents[key]) else None
  }

  predicate IsPowerOfTwo(n: nat) {
    n == 1 || (n > 1 && n % 2 == 0 && IsPowerOfTwo(n / 2))
  }

  lemma {:induction false} PowersApart(a: nat, b: nat)
    requires IsPowerOfTwo(a) && IsPowerOfTwo(b) && a < b
    ensures 2 * a <= b
  {
    if a > 1 {
      PowersApart(a / 2, b / 2);
    }
  }

  class Table {
    var elems: nat
    var list: Buckets
    ghost var contents: map<Key, nat>

    ghost predicate Valid()
      reads this
    {
      Represents(list, contents) && elems == |contents| && Roomy()
    }

    // The number of buckets is a power of two and no less than that of the entries.
    ghost predicate Roomy()
      reads this
    {
      |contents| <= |list| && |list| >= 4 && IsPowerOfTwo(|list|)
    }

    constructor ()
      ensures Valid() && contents == map[]
    {
      elems, list, contents := 0, seq(4, _ => []), map[];
      assert IsPowerOfTwo(2);
    }

    // The place of the key in its chain, or the end of the chain.
    method FindPointer(key: Key) returns (b: nat, j: nat)
      requires Valid()
      ensures b == BucketOf(key, |list|) < |list| && j <= |list[b]|
      ensures j < |list[b]| ==> list[b][j].key == key
      ensures j == |list[b]| ==> key !in contents
      ensures j < |list[b]| ==> key in contents && contents[key] == list[b][j].id
    {
      b := BucketOf(key, |list|);
      j := 0;
      while j < |list[b]| && list[b][j].key != key
        invariant j <= |list[b]| && forall i :: 0 <= i < j ==> list[b][i].key != key
      {
        j := j + 1;
      }
      assert ChainFor(list[b], b, |list|, contents);
    }

    method Lookup(key: Key) returns (r: Option<nat>)
      requires Valid()
      ensures r == Find(contents, key)
    {
      var b, j := FindPointer(key);
      r := if j < |list[b]| then Some(list[b][j].id) else None;
    }

    /** Takes the place of an entry with the same key, or goes to the end of its chain. */
    method Insert(slot: Slot) returns (old': Option<nat>)
      requires Valid()
      modifies this
      ensures Valid() && contents == old(contents)[slot.key := slot.id]
      ensures old' == Find(old(contents), slot.key)
      ensures |list| == if |contents| <= old(|list|) then old(|list|) else 2 * old(|list|)
    {
      hide Represents;
      var b, j := FindPointer(slot.key);
      if j < |list[b]| {
        old' := Some(list[b][j].id);
        SlotReplaced(list, contents, b, j, slot);
        list := list[b := list[b][j := slot]];
        assert contents[slot.key := slot.id].Keys == contents.Keys;
        contents := contents[slot.key := slot.id];
      } else {
        old' := None;
        SlotAppended(list, contents, b, slot);
        list := list[b := list[b] + [slot]];
        contents := contents[slot.key := slot.id];
        elems := elems + 1;
        if elems > |list| {
          Resize();
          PowersApart(old(|list|), |list|);
        }
      }
    }

    method Remove(key: Key) returns (r: Option<nat>)
      requires Valid()
      modifies this
      ensures Valid() && contents == old(contents) - {key}
      ensures r == Find(old(contents), key)
    {
      hide Represents;
      var b, j := FindPointer(key);
      if j < |list[b]| {
        r := Some(list[b][j].id);
        SlotRemoved(list, contents, b, j);
        list := list[b := list[b][..j] + list[b][j + 1..]];
        elems := elems - 1;
        assert contents == (contents - {key})[key := contents[key]];
        assert |contents| == |contents - {key}| + 1;
      } else {
        r := None;
        assert contents - {key} == contents;
      }
      contents := contents - {key};
    }

    /** Rehashes every entry into a list at least as long as there are entries. */
    /** The least number of buckets that will do: a power of two from 4 on. */
    method Resize()
      requires Represents(list, contents) && elems == |contents|
      modifies this`list
      ensures Valid() && (|list| == 4 || |list| / 2 < elems)
    {
      assert IsPowerOfTwo(2) && IsPowerOfTwo(4);
      hide Represents, ChainFor, Copied;
      var newLength := 4;
      while newLength < elems
        invariant newLength >= 4 && IsPowerOfTwo(newLength) && (newLength == 4 || newLength / 2 < elems)
        decreases elems - newLength
      {
        newLength := newLength * 2;
      }
      var newList: Buckets := seq(newLength, _ => []);
      ghost var done: map<Key, nat> := map[];
      NothingDone(newLength);
      NothingCopied(list, contents);
      var from := list;
      for b := 0 to |from|
        invariant |newList| == newLength && Represents(newList, done)
        invariant Copied(from, contents, done, b, 0)
      {
        for j := 0 to |from[b]|
          invariant |newList| == newLength && Represents(newList, done)
          invariant Copied(from, contents, done, b, j)
        {
          var slot := from[b][j];
          NextCopied(from, contents, done, b, j);
          var n := BucketOf(slot.key, newLength);
          SlotPrepended(newList, done, n, slot);
          newList := newList[n := [slot] + newList[n]];
          done := done[slot.key := slot.id];
        }
        ChainCopied(from, contents, done, b);
      }
      AllCopied(from, contents, done);
      list := newList;
    }
  }

  // What the rehashing loop has copied when it stands at place j of chain b.
  ghost predicate Copied(list: Buckets, contents: map<Key, nat>, done: map<Key, nat>, b: nat, j: nat) {
    && Represents(list, contents) && b <= |list| && (b < |list| ==> j <= |list[b]|)
    && (forall key :: key in done ==> key in contents && done[key] == contents[key])
    && (forall key :: key in contents ==>
          (key in done <==> BucketOf(key, |list|) < b
                            || (BucketOf(key, |list|) == b < |list| && Holds(list[b][..j], key))))
  }

  lemma NothingDone(length: nat)
    requires length > 0
    ensures Represents(seq(length, _ => []), map[])
  {
  }

  lemma NothingCopied(list: Buckets, contents: map<Key, nat>)
    requires Represents(list, contents)
    ensures Copied(list, contents, map[], 0, 0)
  {
  }

  lemma NextCopied(list: Buckets, contents: map<Key, nat>, done: map<Key, nat>, b: nat, j: nat)
    requires Copied(list, contents, done, b, j) && b < |list| && j < |list[b]|
    ensures list[b][j].key !in done
    ensures Copied(list, contents, done[list[b][j].key := list[b][j].id], b, j + 1)
  {
    var chain := list[b];
    assert ChainFor(chain, b, |list|, contents);
    forall key ensures Holds(chain[..j + 1], key) <==> Holds(chain[..j], key) || key == chain[j].key {
      if Holds(chain[..j + 1], key) && key != chain[j].key {
        var i :| 0 <= i < j + 1 && chain[..j + 1][i].key == key;
        assert chain[..j][i].key == key;
      }
      if Holds(chain[..j], key) {
        var i :| 0 <= i < j && chain[..j][i].key == key;
        assert chain[..j + 1][i].key == key;
      }
      assert chain[..j + 1][j] == chain[j];
    }
  }

  lemma ChainCopied(list: Buckets, contents: map<Key, nat>, done: map<Key, nat>, b: nat)
    requires b < |list| && Copied(list, contents, done, b, |list[b]|)
    ensures Copied(list, contents, done, b + 1, 0)
  {
    assert ChainFor(list[b], b, |list|, contents);
    assert list[b][..|list[b]|] == list[b];
    if b + 1 < |list| {
      assert list[b + 1][..0] == [];
    }
  }

  lemma AllCopied(list: Buckets, contents: map<Key, nat>, done: map<Key, nat>)
    requires Copied(list, contents, done, |list|, 0)
    ensures done == contents
  {
    assert forall key :: key in contents ==> BucketOf(key, |list|) < |list|;
  }

  lemma SlotReplaced(list: Buckets, contents: map<Key, nat>, b: nat, j: nat, slot: Slot)
    requires Represents(list, contents) && b < |list| && j < |list[b]| && list[b][j].key == slot.key
    ensures Represents(list[b := list[b][j := slot]], contents[slot.key := slot.id])
  {
    var chain, chain' := list[b], list[b][j := slot];
    var list', contents' := list[b := chain'], contents[slot.key := slot.id];
    assert ChainFor(chain, b, |list|, contents);
    forall c | 0 <= c < |list| ensures ChainFor(list'[c], c, |list|, contents') {
      assert ChainFor(list[c], c, |list|, contents);
      if c == b {
        forall key | Holds(chain, key) ensures Holds(chain', key) {
          var i :| 0 <= i < |chain| && chain[i].key == key;
          assert chain'[i].key == key;
        }
      }
    }
  }

  lemma SlotAppended(list: Buckets, contents: map<Key, nat>, b: nat, slot: Slot)
    requires Represents(list, contents) && b < |list| && BucketOf(slot.key, |list|) == b && slot.key !in contents
    ensures Represents(list[b := list[b] + [slot]], contents[slot.key := slot.id])
  {
    AddedToChain(list, contents, b, slot, list[b] + [slot]);
  }

  lemma SlotPrepended(list: Buckets, contents: map<Key, nat>, b: nat, slot: Slot)
    requires Represents(list, contents) && b < |list| && BucketOf(slot.key, |list|) == b && slot.key !in contents
    ensures Represents(list[b := [slot] + list[b]], contents[slot.key := slot.id])
  {
    AddedToChain(list, contents, b, slot, [slot] + list[b]);
  }

  // At either end of the chain.
  lemma AddedToChain(list: Buckets, contents: map<Key, nat>, b: nat, slot: Slot, chain': seq<Slot>)
    requires Represents(list, contents) && b < |list| && BucketOf(slot.key, |list|) == b && slot.key !in contents
    requires chain' == list[b] + [slot] || chain' == [slot] + list[b]
    ensures Represents(list[b := chain'], contents[slot.key := slot.id])
  {
    var chain := list[b];
    var list', contents' := list[b := chain'], contents[slot.key := slot.id];
    assert ChainFor(chain, b, |list|, contents);
    forall c | 0 <= c < |list| ensures ChainFor(list'[c], c, |list|, contents') {
      assert ChainFor(list[c], c, |list|, contents);
      if c == b {
        var shift := if chain' == chain + [slot] then 0 else 1;
        forall key | Holds(chain, key) ensures Holds(chain', key) {
          var i :| 0 <= i < |chain| && chain[i].key == key;
          assert chain'[i + shift].key == key;
        }
        assert chain'[if shift == 0 then |chain| else 0] == slot;
      }
    }
  }

  lemma SlotRemoved(list: Buckets, contents: map<Key, nat>, b: nat, j: nat)
    requires Represents(list, contents) && b < |list| && j < |list[b]|
    ensures Represents(list[b := list[b][..j] + list[b][j + 1..]], contents - {list[b][j].key})
  {
    var chain := list[b];
    var key := chain[j].key;
    var chain', contents' := chain[..j] + chain[j + 1..], contents - {key};
    var list' := list[b := chain'];
    assert ChainFor(chain, b, |list|, contents);
    forall c | 0 <= c < |list| ensures ChainFor(list'[c], c, |list|, contents') {
      assert ChainFor(list[c], c, |list|, contents);
      if c == b {
        forall k | Holds(chain, k) && k != key ensures Holds(chain', k) {
          var i :| 0 <= i < |chain| && chain[i].key == k;
          assert chain'[if i < j then i else i - 1].key == k;
        }
      }
    }
  }
}
