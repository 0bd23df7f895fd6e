/** Reading finished blocks: decoding entries, and the bidirectional iterator. */
module BlockReader {
  import opened DbFormat
  import opened Coding
  import opened BlockFormat

  // ----- decoding one entry -----

  // The three lengths in front of an entry, and where its key bytes start.
  datatype Header = Header(shared: Word, nonShared: Word, valueLength: Word, at: nat)

  function HeaderOf(start: nat, shared: nat, e: KeyValue): Header
    requires shared <= |e.key| < 0x1_0000_0000 && |e.value| < 0x1_0000_0000
  {
    Header(shared, |e.key| - shared, |e.value|,
           start + |Varint(shared)| + |Varint(|e.key| - shared)| + |Varint(|e.value|)|)
  }

  // Three varints, and room for the key bytes and the value; the sum of their lengths wraps.
  function ReadHeader(b: Bytes, start: nat, limit: nat): (r: Option<Header>)
    requires start <= limit <= |b|
    ensures r.Some? ==> start < r.value.at && r.value.at + (r.value.nonShared + r.value.valueLength) % 0x1_0000_0000 <= limit
  {
    var s := VarintAt(b, start, limit);
    if s.None? then None else
    var n := VarintAt(b, s.value.1, limit);
    if n.None? then None else
    var v := VarintAt(b, n.value.1, limit);
    if v.None? || limit - v.value.1 < (n.value.0 + v.value.0) % 0x1_0000_0000 then None
    else Some(Header(s.value.0, n.value.0, v.value.0, v.value.1))
  }

  /** The fast path for three one-byte lengths reads what the general path would. */
  method DecodeEntry(b: Bytes, start: nat, limit: nat) returns (r: Option<Header>)
    requires start <= limit <= |b|
    ensures r == if limit - start < 3 then None else ReadHeader(b, start, limit)
  {
    hide VarintAt;
    if limit - start < 3 {
      return None;
    }
    var s: Word, n: Word, v: Word, p := b[start], b[start + 1], b[start + 2], start + 3;
    if s < 128 && n < 128 && v < 128 {
      OneByteVarint(b, start, limit);
      OneByteVarint(b, start + 1, limit);
      OneByteVarint(b, start + 2, limit);
    } else {
      var d := GetVarint32(b, start, limit);
      if d.None? {
        return None;
      }
      s, p := d.value.0, d.value.1;
      d := GetVarint32(b, p, limit);
      if d.None? {
        return None;
      }
      n, p := d.value.0, d.value.1;
      d := GetVarint32(b, p, limit);
      if d.None? {
        return None;
      }
      v, p := d.value.0, d.value.1;
    }
    if limit - p < (n + v) % 0x1_0000_0000 {
      return None;
    }
    r := Some(Header(s, n, v, p));
  }

  /** Whatever follows an entry, reading its header finds its three lengths. */
  lemma EntryHeader(b: Bytes, start: nat, limit: nat, shared: nat, e: KeyValue, rest: Bytes)
    requires start <= limit <= |b| && shared <= |e.key| && |e.key| + |e.value| < 0x1_0000_0000
    requires b[start..limit] == EncodeEntry(shared, e) + rest
    ensures limit - start >= 3
    ensures ReadHeader(b, start, limit) == Some(HeaderOf(start, shared, e))
    ensures var h := HeaderOf(start, shared, e);
            && h.at + h.nonShared + h.valueLength <= limit
            && b[h.at..h.at + h.nonShared] == e.key[shared..]
            && b[h.at + h.nonShared..h.at + h.nonShared + h.valueLength] == e.value
            && h.at + h.nonShared + h.valueLength - start == |EncodeEntry(shared, e)|
  {
    hide Varint, VarintAt;
    var n, v := |e.key| - shared, |e.value|;
    EntrySplits(shared, e, rest);
    var at := ThreeVarints(b, start, limit, shared, n, v, e.key[shared..] + e.value + rest);
    KeyAndValue(b, at, limit, e.key[shared..], e.value, rest);
  }

  lemma ThreeVarints(b: Bytes, start: nat, limit: nat, x: Word, y: Word, z: Word, body: Bytes) returns (at: nat)
    requires start <= limit <= |b| && b[start..limit] == Varint(x) + (Varint(y) + (Varint(z) + body))
    ensures var p := start + |Varint(x)|;
            var q := p + |Varint(y)|;
            && start < p < q < at <= limit && at == q + |Varint(z)|
            && VarintAt(b, start, limit) == Some((x, p))
            && VarintAt(b, p, limit) == Some((y, q))
            && VarintAt(b, q, limit) == Some((z, at))
    ensures b[at..limit] == body
  {
    hide Varint, VarintAt;
    VarintAtStart(b, start, limit, x, Varint(y) + (Varint(z) + body));
    var p := start + |Varint(x)|;
    VarintAtStart(b, p, limit, y, Varint(z) + body);
    var q := p + |Varint(y)|;
    VarintAtStart(b, q, limit, z, body);
    at := q + |Varint(z)|;
  }

  lemma KeyAndValue(b: Bytes, at: nat, limit: nat, k: Bytes, v: Bytes, rest: Bytes)
    requires at <= limit <= |b| && b[at..limit] == k + v + rest
    ensures at + |k| + |v| <= limit && b[at..at + |k|] == k && b[at + |k|..at + |k| + |v|] == v
  {
    var all := k + v + rest;
    forall i | 0 <= i < |k| ensures b[at + i] == k[i] {
      assert b[at..limit][i] == all[i];
    }
    forall i | 0 <= i < |v| ensures b[at + |k| + i] == v[i] {
      assert b[at..limit][|k| + i] == all[|k| + i];
    }
  }

  lemma EntrySplits(shared: nat, e: KeyValue, rest: Bytes)
    requires shared <= |e.key|
    ensures EncodeEntry(shared, e) + rest ==
            Varint(shared) + (Varint(|e.key| - shared) + (Varint(|e.value|) + (e.key[shared..] + e.value + rest)))
  {
    hide Varint;
  }

  // ----- the iterator -----

  type Order = (Bytes, Bytes) -> bool

  ghost predicate IsTransitive(less: Order) {
    forall a, b, c {:trigger less(a, b), less(b, c)} :: less(a, b) && less(b, c) ==> less(a, c)
  }

  ghost predicate Ascending(less: Order, es: seq<KeyValue>) {
    forall i, j :: 0 <= i < j < |es| ==> less(es[i].key, es[j].key)
  }

  // The first entry whose key is not before target is entry i.
  ghost predicate IsFirstNotBefore(less: Order, es: seq<KeyValue>, target: Bytes, i: nat) {
    && i <= |es|
    && (forall j :: 0 <= j < i ==> less(es[j].key, target))
    && (i < |es| ==> !less(es[i].key, target))
  }

  class Iter {
    const less: Order
    const block: Bytes
    const restarts: nat
    const numRestarts: nat
    var current: nat
    var restartIndex: nat
    var key: Bytes
    var valueStart: nat
    var valueEnd: nat
    ghost const es: seq<KeyValue>
    ghost const shape: Shape
    // The entry the iterator stands on, or the number of entries.
    ghost var at: nat

    ghost predicate Fixed() {
      && IsBlock(block, es, shape)
      && restarts == |shape.data| && numRestarts == |shape.restarts| == |shape.starts| > 0
    }

    ghost predicate Valid()
      reads this
    {
      Standing() && (at < |es| ==> Tracked(at))
    }

    // The restart point in use is the last one before entry i, or stands at it.
    ghost predicate Tracked(i: nat)
      reads this
    {
      && restartIndex < |shape.starts| && shape.starts[restartIndex] <= i
      && (restartIndex + 1 < |shape.starts| ==> i <= shape.starts[restartIndex + 1])
    }

    ghost predicate Standing()
      reads this
    {
      && Fixed() && at <= |es|
      && (at == |es| ==> current == restarts && restartIndex == numRestarts)
      && (at < |es| ==>
            && current == shape.offsets[at] < restarts && restartIndex < numRestarts
            && key == es[at].key && valueStart <= valueEnd == shape.offsets[at + 1] <= |block|
            && block[valueStart..valueEnd] == es[at].value)
    }

    constructor (less: Order, block: Bytes, ghost es: seq<KeyValue>)
      requires Encodes(block, es)
      ensures Valid() && at == |es| && this.es == es && this.block == block && this.less == less
    {
      ghost var shape: Shape :| IsBlock(block, es, shape);
      BlockEnds(block, es, shape);
      this.less, this.block, this.es, this.shape := less, block, es, shape;
      var n := DecodeFixed32(block[|block| - 4..]);
      numRestarts := n;
      restarts := |block| - (1 + n) * 4;
      current, restartIndex, key, valueStart, valueEnd := |block| - (1 + n) * 4, n, [], 0, 0;
      at := |es|;
    }

    function IsValid(): bool
      reads this
    {
      current < restarts
    }

    function Value(): Bytes
      reads this
      requires valueStart <= valueEnd <= |block|
    {
      block[valueStart..valueEnd]
    }

    function GetRestartPoint(j: nat): (r: nat)
      requires Fixed() && j < numRestarts
      ensures r == shape.restarts[j]
    {
      RestartPoint(block, es, shape, j);
      DecodeFixed32(block[restarts + 4 * j..restarts + 4 * j + 4])
    }

    // Where ParseNextKey() goes on: at the end of the current value, with the key it may need.
    ghost predicate Ready(i: nat)
      reads this
    {
      && Fixed() && i <= |es| && valueEnd == shape.offsets[i] && restartIndex < numRestarts
      && shape.starts[restartIndex] <= i
      && (i < |es| && shape.shared[i] > 0 ==> i > 0 && key == es[i - 1].key)
    }

    method SeekToRestartPoint(j: nat)
      requires Fixed() && j < numRestarts
      modifies this
      ensures Ready(shape.starts[j]) && current == old(current) && restartIndex == j
    {
      assert RestartAt(es, shape, j);
      key := [];
      restartIndex := j;
      var offset := GetRestartPoint(j);
      valueStart, valueEnd := offset, offset;
    }

    method ParseNextKey(ghost i: nat) returns (more: bool)
      requires Ready(i)
      modifies this
      ensures Valid() && at == i && more == (i < |es|)
    {
      hide LaidOut, IsBlock, EncodeEntry, ReadHeader;
      EntryParses(block, es, shape, i);
      current := valueEnd;
      at := i;
      if current >= restarts {
        current, restartIndex := restarts, numRestarts;
        return false;
      }
      var d := DecodeEntry(block, current, restarts);
      if d.None? || |key| < d.value.shared {
        assert false;
      }
      var h := d.value;
      key := key[..h.shared] + block[h.at..h.at + h.nonShared];
      valueStart := h.at + h.nonShared;
      valueEnd := valueStart + h.valueLength;
      while restartIndex + 1 < numRestarts && GetRestartPoint(restartIndex + 1) < current
        invariant restartIndex < numRestarts && shape.starts[restartIndex] <= i
        invariant current == old(valueEnd) && key == es[i].key && at == i
        invariant valueStart <= valueEnd == shape.offsets[i + 1] <= |block| && block[valueStart..valueEnd] == es[i].value
        decreases numRestarts - restartIndex
      {
        RestartsBefore(block, es, shape, restartIndex + 1, i);
        restartIndex := restartIndex + 1;
      }
      if restartIndex + 1 < numRestarts {
        RestartsBefore(block, es, shape, restartIndex + 1, i);
      }
      more := true;
    }

    method SeekToFirst()
      requires Valid()
      modifies this
      ensures Valid() && at == 0
    {
      SeekToRestartPoint(0);
      var more := ParseNextKey(0);
    }

    method SeekToLast()
      requires Valid()
      modifies this
      ensures Valid() && at == if es == [] then 0 else |es| - 1
    {
      hide LaidOut, IsBlock;
      SeekToRestartPoint(numRestarts - 1);
      ghost var i := shape.starts[numRestarts - 1];
      RestartsBefore(block, es, shape, numRestarts - 1, |es|);
      var more := ParseNextKey(i);
      while more && valueEnd < restarts
        invariant Valid() && at == i <= |es| && more == (i < |es|)
        invariant es == [] || i < |es|
        decreases |es| - i
      {
        NextBefore(block, es, shape, i, |es|);
        i := i + 1;
        more := ParseNextKey(i);
      }
      if more {
        NextBefore(block, es, shape, i, |es|);
      }
    }

    method Next()
      requires Valid() && IsValid()
      modifies this
      ensures Valid() && at == old(at) + 1
    {
      var more := ParseNextKey(at + 1);
    }

    /** Back to the entry before, by going forward from a restart point. */
    method Prev()
      requires Valid() && IsValid()
      modifies this
      ensures Valid() && at == if old(at) == 0 then |es| else old(at) - 1
    {
      hide LaidOut, IsBlock;
      var original := current;
      ghost var p := at;
      while GetRestartPoint(restartIndex) >= original
        invariant Standing() && at == old(at) && current == original
        decreases restartIndex
      {
        RestartsBefore(block, es, shape, restartIndex, p);
        if restartIndex == 0 {
          current, restartIndex := restarts, numRestarts;
          at := |es|;
          return;
        }
        restartIndex := restartIndex - 1;
      }
      RestartsBefore(block, es, shape, restartIndex, p);
      SeekToRestartPoint(restartIndex);
      ghost var i := shape.starts[restartIndex];
      var more := ParseNextKey(i);
      while more && valueEnd < original
        invariant Valid() && at == i < p && more
        decreases |es| - i
      {
        NextBefore(block, es, shape, i, p);
        i := i + 1;
        more := ParseNextKey(i);
      }
      NextBefore(block, es, shape, i, p);
    }

    // The last restart point with a key before target, or the first one.
    method FindRestartPoint(target: Bytes) returns (left: nat)
      requires Fixed()
      ensures left < numRestarts
      ensures left + 1 < numRestarts ==> shape.starts[left + 1] < |es| && !less(es[shape.starts[left + 1]].key, target)
      ensures left > 0 ==> shape.starts[left] < |es| && less(es[shape.starts[left]].key, target)
    {
      hide LaidOut, IsBlock, ReadHeader;
      RestartsBefore(block, es, shape, 0, 0);
      left := 0;
      var right := numRestarts - 1;
      while left < right
        invariant left <= right < numRestarts
        invariant right + 1 < numRestarts ==> shape.starts[right + 1] < |es| && !less(es[shape.starts[right + 1]].key, target)
        invariant left > 0 ==> shape.starts[left] < |es| && less(es[shape.starts[left]].key, target)
        decreases right - left
      {
        var mid := (left + right + 1) / 2;
        var offset := GetRestartPoint(mid);
        RestartHeader(block, es, shape, mid);
        var d := DecodeEntry(block, offset, restarts);
        if d.None? || d.value.shared != 0 {
          assert false;
        }
        var midKey := block[d.value.at..d.value.at + d.value.nonShared];
        if less(midKey, target) {
          left := mid;
        } else {
          right := mid - 1;
        }
      }
    }

    /** Binary search over the restart points, then a scan: the first key not before target. */
    method Seek(target: Bytes)
      requires Valid() && IsTransitive(less) && Ascending(less, es)
      modifies this
      ensures Valid() && IsFirstNotBefore(less, es, target, at)
    {
      hide LaidOut, IsBlock;
      var left := FindRestartPoint(target);
      SeekToRestartPoint(left);
      ghost var i := shape.starts[left];
      RestartsBefore(block, es, shape, left, 0);
      assert forall j :: 0 <= j < i ==> less(es[j].key, es[i].key);
      while true
        invariant Ready(i) && i <= |es|
        invariant forall j :: 0 <= j < i ==> less(es[j].key, target)
        decreases |es| - i
      {
        var more := ParseNextKey(i);
        if !more || !less(key, target) {
          return;
        }
        i := i + 1;
      }
    }
  }

  /** Going through a finished block yields exactly the entries it was built from. */
  method ReadAll(less: Order, block: Bytes, ghost es: seq<KeyValue>) returns (all: seq<KeyValue>)
    requires Encodes(block, es)
    ensures all == es
  {
    var iter := new Iter(less, block, es);
    iter.SeekToFirst();
    all := [];
    while iter.IsValid()
      invariant iter.Valid() && iter.es == es && all == es[..iter.at]
      decreases |es| - iter.at
    {
      all := all + [KeyValue(iter.key, iter.Value())];
      iter.Next();
    }
  }

  // What is known of restart point j, and whether it lies before entry p.
  lemma RestartsBefore(block: Bytes, es: seq<KeyValue>, s: Shape, j: nat, p: nat)
    requires IsBlock(block, es, s) && j < |s.restarts| && p <= |es|
    ensures |s.starts| == |s.restarts| && |s.offsets| == |es| + 1 && |s.shared| == |es|
    ensures s.starts[j] <= |es| && s.restarts[j] == s.offsets[s.starts[j]]
    ensures s.restarts[j] < s.offsets[p] <==> s.starts[j] < p
    ensures j > 0 || es != [] ==> s.starts[j] < |es| && s.shared[s.starts[j]] == 0
    ensures j == 0 ==> s.starts[j] == 0
  {
    assert RestartAt(es, s, j);
    if s.starts[j] < p {
      OffsetsRise(es, s, s.starts[j], p);
    } else if p < s.starts[j] {
      OffsetsRise(es, s, p, s.starts[j]);
    }
  }

  // A restart point, other than the first of an empty block, stands at an entry with its whole key.
  lemma RestartHeader(block: Bytes, es: seq<KeyValue>, s: Shape, j: nat)
    requires IsBlock(block, es, s) && 0 < j < |s.restarts|
    ensures |s.starts| == |s.restarts| && s.starts[j] < |es|
    ensures s.restarts[j] + 3 <= |s.data| <= |block|
    ensures var h := ReadHeader(block, s.restarts[j], |s.data|);
            && h.Some? && h.value.shared == 0 && h.value.at + h.value.nonShared <= |block|
            && block[h.value.at..h.value.at + h.value.nonShared] == es[s.starts[j]].key
  {
    RestartsBefore(block, es, s, j, |es|);
    hide IsBlock, ReadHeader;
    EntryParses(block, es, s, s.starts[j]);
    var k := es[s.starts[j]].key;
    assert k[0..] == k;
  }

  lemma NextBefore(block: Bytes, es: seq<KeyValue>, s: Shape, i: nat, p: nat)
    requires IsBlock(block, es, s) && i < p <= |es|
    ensures |s.offsets| == |es| + 1 && s.offsets[|es|] == |s.data|
    ensures s.offsets[i + 1] < s.offsets[p] <==> i + 1 < p
  {
    if i + 1 < p {
      OffsetsRise(es, s, i + 1, p);
    }
  }

  lemma BlockEnds(block: Bytes, es: seq<KeyValue>, s: Shape)
    requires IsBlock(block, es, s)
    ensures |block| == |s.data| + 4 * |s.restarts| + 4
    ensures DecodeFixed32(block[|block| - 4..]) == |s.restarts|
  {
    hide LaidOut;
    Fixed32RoundTrip(|s.restarts|);
    assert block[|block| - 4..] == Fixed32(|s.restarts|);
  }

  lemma RestartPoint(block: Bytes, es: seq<KeyValue>, s: Shape, j: nat)
    requires IsBlock(block, es, s) && j < |s.restarts|
    ensures |s.data| + 4 * j + 4 <= |block|
    ensures DecodeFixed32(block[|s.data| + 4 * j..|s.data| + 4 * j + 4]) == s.restarts[j]
  {
    hide LaidOut;
    var n := |s.data|;
    WordsAt(s.restarts, j);
    Fixed32RoundTrip(s.restarts[j]);
    assert block[n + 4 * j..n + 4 * j + 4] == Words(s.restarts)[4 * j..4 * j + 4];
  }

  // A key cannot be longer than the entries that spell it out.
  lemma {:induction false} KeyBound(es: seq<KeyValue>, s: Shape, i: nat)
    requires LaidOut(es, s) && i < |es|
    ensures |es[i].key| + |es[i].value| <= s.offsets[i + 1]
  {
    assert EntryAt(es, s, i);
    if s.shared[i] > 0 {
      KeyBound(es, s, i - 1);
    }
  }

  // Entry i read from where it stands in the block.
  lemma EntryParses(block: Bytes, es: seq<KeyValue>, s: Shape, i: nat)
    requires IsBlock(block, es, s) && i <= |es|
    ensures |s.shared| == |es| && |s.offsets| == |es| + 1 && |s.data| <= |block| && s.offsets[i] <= |s.data|
    ensures i == |es| <==> s.offsets[i] >= |s.data|
    ensures i < |es| ==>
              && |s.data| - s.offsets[i] >= 3
              && s.shared[i] <= |es[i].key|
              && (s.shared[i] > 0 ==> i > 0 && s.shared[i] <= |es[i - 1].key| && es[i - 1].key[..s.shared[i]] == es[i].key[..s.shared[i]])
              && s.offsets[i + 1] <= |block|
              && match ReadHeader(block, s.offsets[i], |s.data|)
                 case None => false
                 case Some(h) =>
                   && h.shared == s.shared[i] && h.at + h.nonShared + h.valueLength == s.offsets[i + 1]
                   && block[h.at..h.at + h.nonShared] == es[i].key[h.shared..]
                   && block[h.at + h.nonShared..h.at + h.nonShared + h.valueLength] == es[i].value
  {
    if i < |es| {
      EntryBytes(block, es, s, i);
      hide EncodeEntry, ReadHeader, IsBlock;
      EntryHeader(block, s.offsets[i], |s.data|, s.shared[i], es[i], s.data[s.offsets[i + 1]..]);
    }
  }

  lemma EntryBytes(block: Bytes, es: seq<KeyValue>, s: Shape, i: nat)
    requires IsBlock(block, es, s) && i < |es|
    ensures |s.shared| == |es| && |s.offsets| == |es| + 1
    ensures var start, end, shared := s.offsets[i], s.offsets[i + 1], s.shared[i];
            && shared <= |es[i].key|
            && start + |EncodeEntry(shared, es[i])| == end <= |s.data| <= |block|
            && |es[i].key| + |es[i].value| < 0x1_0000_0000
            && (shared > 0 ==> i > 0 && shared <= |es[i - 1].key| && es[i - 1].key[..shared] == es[i].key[..shared])
            && block[start..|s.data|] == EncodeEntry(shared, es[i]) + s.data[end..]
  {
    hide EncodeEntry;
    var start, end := s.offsets[i], s.offsets[i + 1];
    assert EntryAt(es, s, i);
    KeyBound(es, s, i);
    assert block[start..|s.data|] == s.data[start..end] + s.data[end..];
  }
}
