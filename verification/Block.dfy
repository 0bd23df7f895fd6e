/** Blocks of a table: prefix-compressed entries, restart points, and the restart array. */
module BlockFormat {
  import opened DbFormat
  import opened Coding

  datatype KeyValue = KeyValue(key: Bytes, value: Bytes)

  // How a block lays out its entries: the bytes of the entries, the offset of each entry and of
  // the end, the length of the prefix each shares with the entry before, the restart points, and
  // the entries these point at.
  datatype Shape = Shape(data: Bytes, offsets: seq<nat>, shared: seq<nat>, restarts: seq<Word>, starts: seq<nat>)

  function EncodeEntry(shared: nat, e: KeyValue): Bytes
    requires shared <= |e.key|
  {
    Varint(shared) + Varint(|e.key| - shared) + Varint(|e.value|) + e.key[shared..] + e.value
  }

  function Lead(key: Bytes, n: nat): Bytes {
    if n <= |key| then key[..n] else key
  }

  // Entry i shares shared[i] bytes with the entry before it, and stands where it should.
  ghost predicate EntryAt(es: seq<KeyValue>, s: Shape, i: nat)
    requires i < |es| && |s.shared| == |es| && |s.offsets| == |es| + 1
  {
    && s.shared[i] <= |es[i].key|
    && (s.shared[i] > 0 ==> i > 0 && Lead(es[i - 1].key, s.shared[i]) == es[i].key[..s.shared[i]])
    && s.offsets[i] <= s.offsets[i + 1] <= |s.data|
    && s.data[s.offsets[i]..s.offsets[i + 1]] == EncodeEntry(s.shared[i], es[i])
  }

  ghost predicate RestartAt(es: seq<KeyValue>, s: Shape, j: nat)
    requires j < |s.starts| == |s.restarts| && |s.shared| == |es| && |s.offsets| == |es| + 1
  {
    && (s.starts[j] < |es| || s.starts[j] == j == 0)
    && s.restarts[j] == s.offsets[s.starts[j]]
    && (s.starts[j] < |es| ==> s.shared[s.starts[j]] == 0)
    && (j > 0 ==> s.starts[j - 1] < s.starts[j])
  }

  ghost predicate LaidOut(es: seq<KeyValue>, s: Shape) {
    && |s.shared| == |es| && |s.offsets| == |es| + 1
    && s.offsets[0] == 0 && s.offsets[|es|] == |s.data|
    && (forall i :: 0 <= i < |es| ==> EntryAt(es, s, i))
    && |s.starts| == |s.restarts| > 0 && s.starts[0] == 0
    && (forall j :: 0 <= j < |s.starts| ==> RestartAt(es, s, j))
  }

  // n is the length of the longest common prefix.
  predicate LongestPrefix(a: Bytes, b: Bytes, n: nat) {
    && n <= |a| && n <= |b| && a[..n] == b[..n]
    && (n < |a| && n < |b| ==> a[n] != b[n])
  }

  // A restart point stores its whole key, any other entry no byte that it could share.
  ghost predicate SharesAll(es: seq<KeyValue>, s: Shape, i: nat)
    requires i < |es| == |s.shared|
  {
    if i in s.starts then s.shared[i] == 0
    else i > 0 && LongestPrefix(es[i - 1].key, es[i].key, s.shared[i])
  }

  ghost predicate StartsAfter(s: Shape, j: nat, interval: nat)
    requires 0 < j < |s.starts|
  {
    s.starts[j] == s.starts[j - 1] + interval
  }

  /** Every restart point is interval entries after the one before, the last has at most as many
      behind it, and the entries between share as much as they can. */
  ghost predicate Compressed(es: seq<KeyValue>, s: Shape, interval: nat) {
    && |s.shared| == |es| && s.starts != [] && s.starts[0] == 0
    && (forall j :: 0 < j < |s.starts| ==> StartsAfter(s, j, interval))
    && (if es == [] then s.starts == [0] else 0 < |es| - s.starts[|s.starts| - 1] <= interval)
    && (forall i :: 0 <= i < |es| ==> SharesAll(es, s, i))
  }

  // block is a finished block that holds es.
  ghost predicate IsBlock(block: Bytes, es: seq<KeyValue>, s: Shape) {
    && LaidOut(es, s)
    && |block| < 0x1_0000_0000
    && |s.restarts| < 0x1_0000_0000
    && block == s.data + Words(s.restarts) + Fixed32(|s.restarts|)
  }

  ghost predicate Encodes(block: Bytes, es: seq<KeyValue>) {
    exists s :: IsBlock(block, es, s)
  }

  lemma {:induction false} OffsetsRise(es: seq<KeyValue>, s: Shape, i: nat, j: nat)
    requires LaidOut(es, s) && i < j <= |es|
    ensures s.offsets[i] + 3 <= s.offsets[j]
  {
    assert EntryAt(es, s, j - 1);
    if i < j - 1 {
      OffsetsRise(es, s, i, j - 1);
    }
  }

  lemma {:induction false} StartsRise(es: seq<KeyValue>, s: Shape, i: nat, j: nat)
    requires LaidOut(es, s) && i < j < |s.starts|
    ensures s.starts[i] < s.starts[j] < |es|
  {
    assert RestartAt(es, s, j);
    if i < j - 1 {
      StartsRise(es, s, i, j - 1);
    }
  }
}

/** The entries and the restart interval determine every byte of a block. */
module BlockIsDetermined {
  import opened DbFormat
  import opened Coding
  import opened BlockFormat

  lemma OneShape(es: seq<KeyValue>, s: Shape, t: Shape, interval: nat)
    requires LaidOut(es, s) && Compressed(es, s, interval) && LaidOut(es, t) && Compressed(es, t, interval)
    ensures s == t
  {
    SameStarts(es, s, t, interval);
    forall i | 0 <= i < |es| ensures s.shared[i] == t.shared[i] {
      assert SharesAll(es, s, i) && SharesAll(es, t, i);
    }
    assert s.shared == t.shared;
    forall i | 0 <= i <= |es| ensures s.offsets[i] == t.offsets[i] {
      SameData(es, s, t, i);
    }
    SameData(es, s, t, |es|);
    assert s.offsets == t.offsets && s.data[..|s.data|] == s.data && t.data[..|t.data|] == t.data;
    forall j | 0 <= j < |s.starts| ensures s.restarts[j] == t.restarts[j] {
      assert RestartAt(es, s, j) && RestartAt(es, t, j);
    }
    assert s.restarts == t.restarts;
  }

  lemma {:induction false} SameStart(s: Shape, t: Shape, j: nat, interval: nat)
    requires j < |s.starts| && j < |t.starts| && s.starts[0] == t.starts[0]
    requires forall k :: 0 < k < |s.starts| ==> StartsAfter(s, k, interval)
    requires forall k :: 0 < k < |t.starts| ==> StartsAfter(t, k, interval)
    ensures s.starts[j] == t.starts[j]
  {
    if j > 0 {
      SameStart(s, t, j - 1, interval);
      assert StartsAfter(s, j, interval) && StartsAfter(t, j, interval);
    }
  }

  lemma NotFewer(es: seq<KeyValue>, s: Shape, t: Shape, interval: nat)
    requires Compressed(es, s, interval) && LaidOut(es, t) && Compressed(es, t, interval)
    ensures |s.starts| >= |t.starts|
  {
    var n := |s.starts|;
    if n < |t.starts| {
      StartInside(es, t, n, interval);
      SameStart(s, t, n - 1, interval);
    }
  }

  lemma StartInside(es: seq<KeyValue>, t: Shape, j: nat, interval: nat)
    requires LaidOut(es, t) && Compressed(es, t, interval) && 0 < j < |t.starts|
    ensures t.starts[j - 1] + interval == t.starts[j] < |es|
  {
    assert RestartAt(es, t, j) && StartsAfter(t, j, interval);
  }

  lemma SameStarts(es: seq<KeyValue>, s: Shape, t: Shape, interval: nat)
    requires LaidOut(es, s) && Compressed(es, s, interval) && LaidOut(es, t) && Compressed(es, t, interval)
    ensures s.starts == t.starts
  {
    NotFewer(es, s, t, interval);
    NotFewer(es, t, s, interval);
    forall j | 0 <= j < |s.starts| ensures s.starts[j] == t.starts[j] {
      SameStart(s, t, j, interval);
    }
  }

  lemma {:induction false} SameData(es: seq<KeyValue>, s: Shape, t: Shape, i: nat)
    requires LaidOut(es, s) && LaidOut(es, t) && s.shared == t.shared && i <= |es|
    ensures s.offsets[i] == t.offsets[i] <= |s.data| && s.offsets[i] <= |t.data|
    ensures s.data[..s.offsets[i]] == t.data[..s.offsets[i]]
  {
    if i > 0 {
      SameData(es, s, t, i - 1);
      assert EntryAt(es, s, i - 1) && EntryAt(es, t, i - 1);
      var a, b := s.offsets[i - 1], s.offsets[i];
      assert |s.data[a..b]| == b - a && |t.data[a..t.offsets[i]]| == t.offsets[i] - a;
      assert s.data[..b] == s.data[..a] + s.data[a..b] && t.data[..b] == t.data[..a] + t.data[a..b];
    }
  }
}

module BlockBuilder {
  import opened DbFormat
  import opened Coding
  import opened BlockFormat

  class Builder {
    const restartInterval: nat
    var buffer: Bytes
    var restarts: seq<Word>
    var counter: nat
    var finished: bool
    var lastKey: Bytes
    ghost var entries: seq<KeyValue>
    ghost var shape: Shape

    ghost predicate Valid()
      reads this
    {
      && LaidOut(entries, shape)
      && shape.restarts == restarts
      && (!finished ==> shape.data == buffer && lastKey == if entries == [] then [] else entries[|entries| - 1].key)
      && restartInterval > 0
      && counter == |entries| - shape.starts[|shape.starts| - 1]
      && Compressed(entries, shape, restartInterval)
    }

    constructor (restartInterval: nat)
      requires restartInterval > 0
      ensures Valid() && !finished && entries == [] && this.restartInterval == restartInterval && CurrentSizeEstimate() == 8
    {
      this.restartInterval := restartInterval;
      buffer, restarts, counter, finished, lastKey := [], [0], 0, false, [];
      entries, shape := [], Shape([], [0], [], [0], [0]);
    }

    predicate Empty()
      reads this
      requires Valid() && !finished
      ensures Empty() <==> entries == []
    {
      EmptyBuffer(entries, shape);
      buffer == []
    }

    method Reset()
      modifies this
      requires Valid()
      ensures Valid() && !finished && entries == [] && CurrentSizeEstimate() == 8
    {
      buffer, restarts, counter, finished, lastKey := [], [0], 0, false, [];
      entries, shape := [], Shape([], [0], [], [0], [0]);
    }

    // The length of a block finished now.
    function CurrentSizeEstimate(): nat
      reads this
    {
      |buffer| + 4 * |restarts| + 4
    }

    method Add(key: Bytes, value: Bytes)
      requires Valid() && !finished
      requires |key| < 0x1_0000_0000 && |value| < 0x1_0000_0000 && |buffer| < 0x1_0000_0000
      modifies this
      ensures Valid() && !finished && entries == old(entries) + [KeyValue(key, value)]
      ensures CurrentSizeEstimate() <= old(CurrentSizeEstimate()) + |key| + |value| + 19
    {
      hide LaidOut, EncodeEntry, IsBlock, WithEntry, SharesAll, StartsAfter;
      var shared := 0;
      ghost var restart := false;
      if counter < restartInterval {
        shared := SharedPrefix(lastKey, key);
      } else {
        restarts := restarts + [|buffer|];
        counter := 0;
        restart := true;
      }
      ghost var e := KeyValue(key, value);
      assert Lead(lastKey, shared) == key[..shared];
      var encoded := Encoded(shared, key, value);
      AddedEntry(entries, shape, e, shared, encoded, restart);
      AddedCompressed(entries, shape, e, shared, encoded, restart, restartInterval);
      buffer := buffer + encoded;
      lastKey := lastKey[..shared] + key[shared..];
      assert lastKey == key[..shared] + key[shared..] == key;
      counter := counter + 1;
      shape := WithEntry(entries, shape, shared, encoded, restart);
      entries := entries + [e];
    }

    method Finish() returns (block: Bytes)
      requires Valid() && !finished && CurrentSizeEstimate() < 0x1_0000_0000
      modifies this
      ensures Valid() && finished && entries == old(entries)
      ensures Encodes(block, entries) && |block| == old(CurrentSizeEstimate())
      ensures IsBlock(block, entries, shape) && Compressed(entries, shape, restartInterval)
    {
      for i := 0 to |restarts|
        invariant restarts == old(restarts) && counter == old(counter) && shape == old(shape) && entries == old(entries)
        invariant buffer == shape.data + Words(restarts[..i])
      {
        assert restarts[..i + 1][..i] == restarts[..i];
        buffer := buffer + Fixed32(restarts[i]);
      }
      assert restarts[..|restarts|] == restarts;
      buffer := buffer + Fixed32(|restarts|);
      finished := true;
      block := buffer;
      assert IsBlock(block, entries, shape);
    }
  }

  // Three lengths as varints, then the rest of the key, and the value.
  method Encoded(shared: nat, key: Bytes, value: Bytes) returns (r: Bytes)
    requires shared <= |key| < 0x1_0000_0000 && |value| < 0x1_0000_0000
    ensures r == EncodeEntry(shared, KeyValue(key, value)) && |r| <= |key| + |value| + 15
  {
    hide Varint;
    var a := EncodeVarint32(shared);
    var b := EncodeVarint32(|key| - shared);
    var c := EncodeVarint32(|value|);
    VarintLength32(shared);
    VarintLength32(|key| - shared);
    VarintLength32(|value|);
    r := a + b + c + key[shared..] + value;
  }

  lemma EmptyBuffer(es: seq<KeyValue>, s: Shape)
    requires LaidOut(es, s)
    ensures s.data == [] <==> es == []
  {
    if es != [] {
      OffsetsRise(es, s, 0, |es|);
    }
  }

  // The length of the common prefix.
  method SharedPrefix(a: Bytes, b: Bytes) returns (n: nat)
    ensures LongestPrefix(a, b, n)
  {
    var minLength := if |a| < |b| then |a| else |b|;
    n := 0;
    while n < minLength && a[n] == b[n]
      invariant n <= minLength && a[..n] == b[..n]
    {
      assert a[..n + 1] == a[..n] + [a[n]] && b[..n + 1] == b[..n] + [b[n]];
      n := n + 1;
    }
  }

  ghost function WithEntry(es: seq<KeyValue>, s: Shape, shared: nat, encoded: Bytes, restart: bool): Shape
    requires |s.data| < 0x1_0000_0000
  {
    Shape(s.data + encoded, s.offsets + [|s.data| + |encoded|], s.shared + [shared],
          if restart then s.restarts + [|s.data|] else s.restarts,
          if restart then s.starts + [|es|] else s.starts)
  }

  lemma AddedCompressed(es: seq<KeyValue>, s: Shape, e: KeyValue, shared: nat, encoded: Bytes, restart: bool, interval: nat)
    requires LaidOut(es, s) && Compressed(es, s, interval) && interval > 0 && |s.data| < 0x1_0000_0000
    requires var counter := |es| - s.starts[|s.starts| - 1];
             if restart then counter == interval && shared == 0
             else counter < interval && LongestPrefix(if es == [] then [] else es[|es| - 1].key, e.key, shared)
    ensures Compressed(es + [e], WithEntry(es, s, shared, encoded, restart), interval)
  {
    var all, t := es + [e], WithEntry(es, s, shared, encoded, restart);
    hide LaidOut;
    forall i | 0 <= i < |all| ensures SharesAll(all, t, i) {
      if i < |es| {
        assert SharesAll(es, s, i);
      } else if i == 0 {
        assert t.starts == [0] && t.starts[0] == 0;
      } else {
        LastStart(es, s, i);
      }
    }
    forall j | 0 < j < |t.starts| ensures StartsAfter(t, j, interval) {
      if j < |s.starts| {
        assert StartsAfter(s, j, interval);
      }
    }
  }

  // No restart point lies beyond the entries.
  lemma LastStart(es: seq<KeyValue>, s: Shape, i: nat)
    requires LaidOut(es, s) && i >= |es|
    ensures i in s.starts ==> i == 0
  {
    if i in s.starts {
      var j :| 0 <= j < |s.starts| && s.starts[j] == i;
      assert RestartAt(es, s, j);
    }
  }

  lemma AddedEntry(es: seq<KeyValue>, s: Shape, e: KeyValue, shared: nat, encoded: Bytes, restart: bool)
    requires LaidOut(es, s) && |s.data| < 0x1_0000_0000 && shared <= |e.key| && encoded == EncodeEntry(shared, e)
    requires shared > 0 ==> es != [] && Lead(es[|es| - 1].key, shared) == e.key[..shared]
    requires restart ==> shared == 0 && s.starts[|s.starts| - 1] < |es|
    ensures LaidOut(es + [e], WithEntry(es, s, shared, encoded, restart))
    ensures var t := WithEntry(es, s, shared, encoded, restart);
            && t.data == s.data + encoded && |t.starts| > 0
            && t.restarts == (if restart then s.restarts + [|s.data|] else s.restarts)
            && t.starts[|t.starts| - 1] == if restart then |es| else s.starts[|s.starts| - 1]
  {
    hide EncodeEntry;
    var all, t := es + [e], WithEntry(es, s, shared, encoded, restart);
    forall i | 0 <= i < |all| ensures EntryAt(all, t, i) {
      if i < |es| {
        assert EntryAt(es, s, i);
        assert t.data[t.offsets[i]..t.offsets[i + 1]] == s.data[s.offsets[i]..s.offsets[i + 1]];
      } else {
        assert t.data[|s.data|..|s.data| + |encoded|] == encoded;
      }
    }
    forall j | 0 <= j < |t.starts| ensures RestartAt(all, t, j) {
      if j < |s.starts| {
        assert RestartAt(es, s, j);
      }
    }
  }
}
