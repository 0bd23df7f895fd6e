/** Tables: data blocks in key order, an index of shortened separators, and a filter block. */
module TableFormat {
  import opened DbFormat
  import opened Coding
  import opened Comparator
  import opened BlockFormat
  import opened BlockReader
  import opened Bloom
  import opened FilterBlock

  const TRAILER_SIZE: nat := 5

  // Where a block is in the file; the trailer of type and checksum follows it.
  datatype Handle = Handle(offset: nat, size: nat)

  function EncodeHandle(h: Handle): Bytes {
    Varint(h.offset) + Varint(h.size)
  }

  function DecodeHandle(b: Bytes): Option<Handle> {
    match DecodeVarint(b, 10)
    case None => None
    case Some((offset, n)) =>
      DecodedLength(b, 10);
      match DecodeVarint(b[n..], 10)
      case None => None
      case Some((size, _)) => Some(Handle(offset, size))
  }

  predicate Encodable(h: Handle) {
    h.offset < 0x1_0000_0000_0000_0000 && h.size < 0x1_0000_0000_0000_0000
  }

  lemma HandleRoundTrip(h: Handle)
    requires Encodable(h)
    ensures DecodeHandle(EncodeHandle(h)) == Some(h)
  {
    VarintLength64(h.offset);
    VarintLength64(h.size);
    VarintRoundTrip(h.offset, 10, Varint(h.size));
    assert EncodeHandle(h)[|Varint(h.offset)|..] == Varint(h.size) + [];
    VarintRoundTrip(h.size, 10, []);
  }

  // ----- the contents of a table -----

  datatype DataBlock = DataBlock(handle: Handle, es: seq<KeyValue>)

  function All(blocks: seq<DataBlock>): seq<KeyValue> {
    if blocks == [] then [] else All(blocks[..|blocks| - 1]) + blocks[|blocks| - 1].es
  }

  ghost predicate GoodKeys(es: seq<KeyValue>) {
    es != [] && Ascending(KeyLess, es) && forall e :: e in es ==> IsInternalKey(e.key)
  }

  function First(es: seq<KeyValue>): Bytes
    requires es != []
  {
    es[0].key
  }

  function Last(es: seq<KeyValue>): Bytes
    requires es != []
  {
    es[|es| - 1].key
  }

  // sep separates a key from the next: it is the key, or its user key lies strictly between.
  predicate Separates(last: Bytes, sep: Bytes)
    requires IsInternalKey(last)
  {
    IsInternalKey(sep) && (sep == last || BytesLess(UserOf(last), UserOf(sep)))
  }

  predicate SeparatesFrom(last: Bytes, sep: Bytes, next: Bytes)
    requires IsInternalKey(last) && IsInternalKey(next)
  {
    IsInternalKey(sep) && KeyLess(last, next) &&
    (sep == last || (BytesLess(UserOf(last), UserOf(sep)) && BytesLess(UserOf(sep), UserOf(next))))
  }

  ghost predicate Ordered(blocks: seq<DataBlock>, seps: seq<Bytes>) {
    && |seps| == |blocks|
    && (forall b :: 0 <= b < |blocks| ==> GoodKeys(blocks[b].es) && Separates(Last(blocks[b].es), seps[b]))
    && (forall b :: 0 <= b < |blocks| - 1 ==> SeparatesFrom(Last(blocks[b].es), seps[b], First(blocks[b + 1].es)))
  }

  // The block at h holds the entries.
  ghost predicate BlockAt(file: Bytes, h: Handle, es: seq<KeyValue>) {
    h.offset + h.size + TRAILER_SIZE <= |file| && Encodes(file[h.offset..h.offset + h.size], es)
  }

  function IndexEntries(blocks: seq<DataBlock>, seps: seq<Bytes>): (r: seq<KeyValue>)
    requires |seps| == |blocks|
    ensures |r| == |blocks|
  {
    seq(|blocks|, b requires 0 <= b < |blocks| => KeyValue(seps[b], EncodeHandle(blocks[b].handle)))
  }

  function StripTag(key: Bytes): Bytes {
    if IsInternalKey(key) then UserOf(key) else key
  }

  function StripTags(keys: seq<Bytes>): (r: seq<Bytes>)
    ensures |r| == |keys|
  {
    seq(|keys|, i requires 0 <= i < |keys| => StripTag(keys[i]))
  }

  // InternalFilterPolicy: filters are made of user keys.
  function InternalPolicy(p: Policy): Policy {
    Policy(keys => p.create(StripTags(keys)), (key, filter) => p.mayMatch(StripTag(key), filter))
  }

  lemma InternalNeverMisses(p: Policy)
    requires NoFalseNegatives(p)
    ensures NoFalseNegatives(InternalPolicy(p))
  {
    forall keys: seq<Bytes>, key: Bytes | key in keys ensures InternalPolicy(p).mayMatch(key, InternalPolicy(p).create(keys)) {
      var i :| 0 <= i < |keys| && keys[i] == key;
      assert StripTags(keys)[i] == StripTag(key);
      assert StripTag(key) in StripTags(keys);
    }
  }

  // The filter block matches every key of every block.
  ghost predicate FilterCovers(policy: Policy, contents: Bytes, blocks: seq<DataBlock>) {
    forall b, e :: 0 <= b < |blocks| && e in blocks[b].es ==>
      FilterMayMatch(policy, OpenFilter(contents), blocks[b].handle.offset, e.key)
  }

  // The handles that the footer and the metaindex lead to.
  datatype Table = Table(index: Handle, filter: Option<Handle>)

  ghost predicate IsTable(file: Bytes, t: Table, policy: Policy, blocks: seq<DataBlock>, seps: seq<Bytes>) {
    && Ordered(blocks, seps)
    && (forall b :: 0 <= b < |blocks| ==> BlockAt(file, blocks[b].handle, blocks[b].es) && Encodable(blocks[b].handle))
    && BlockAt(file, t.index, IndexEntries(blocks, seps))
    && (t.filter.Some? ==>
          && t.filter.value.offset + t.filter.value.size <= |file|
          && FilterCovers(InternalPolicy(policy), file[t.filter.value.offset..t.filter.value.offset + t.filter.value.size], blocks))
  }

  lemma KeyOrder()
    ensures IsTransitive(KeyLess)
  {
    forall a, b, c | KeyLess(a, b) && KeyLess(b, c) ensures KeyLess(a, c) {
      KeyTransitive(a, b, c);
    }
  }

  // ----- blocks and the list of all entries -----

  function Base(blocks: seq<DataBlock>, b: nat): nat
    requires b <= |blocks|
  {
    |All(blocks[..b])|
  }

  lemma BaseStep(blocks: seq<DataBlock>, b: nat)
    requires b < |blocks|
    ensures Base(blocks, b + 1) == Base(blocks, b) + |blocks[b].es|
  {
    assert blocks[..b + 1][..b] == blocks[..b];
  }

  lemma {:induction false} AllAt(blocks: seq<DataBlock>, b: nat, i: nat)
    requires b < |blocks| && i < |blocks[b].es|
    ensures Base(blocks, b) + i < |All(blocks)| && All(blocks)[Base(blocks, b) + i] == blocks[b].es[i]
  {
    var n := |blocks| - 1;
    if b < n {
      AllAt(blocks[..n], b, i);
      assert blocks[..n][..b] == blocks[..b];
    }
  }

  lemma {:induction false} WhereInAll(blocks: seq<DataBlock>, j: nat) returns (b: nat, i: nat)
    requires j < |All(blocks)|
    ensures b < |blocks| && i < |blocks[b].es| && j == Base(blocks, b) + i && All(blocks)[j] == blocks[b].es[i]
  {
    var n := |blocks| - 1;
    if j < |All(blocks[..n])| {
      b, i := WhereInAll(blocks[..n], j);
      assert blocks[..n][..b] == blocks[..b];
    } else {
      b, i := n, j - |All(blocks[..n])|;
    }
  }

  lemma {:induction false} BaseGrows(blocks: seq<DataBlock>, b: nat, c: nat)
    requires b <= c <= |blocks|
    ensures Base(blocks, b) <= Base(blocks, c)
  {
    if b < c {
      BaseGrows(blocks, b, c - 1);
      BaseStep(blocks, c - 1);
    }
  }

  // ----- separators -----

  lemma SepBeforeNext(blocks: seq<DataBlock>, seps: seq<Bytes>, b: nat)
    requires Ordered(blocks, seps) && b + 1 < |blocks|
    ensures KeyLess(seps[b], First(blocks[b + 1].es))
  {
    assert SeparatesFrom(Last(blocks[b].es), seps[b], First(blocks[b + 1].es));
  }

  // No entry of a block is after its separator.
  lemma EntryToSep(blocks: seq<DataBlock>, seps: seq<Bytes>, b: nat, i: nat, x: Bytes)
    requires Ordered(blocks, seps) && b < |blocks| && i < |blocks[b].es|
    ensures KeyLess(x, blocks[b].es[i].key) ==> KeyLess(x, seps[b])
    ensures KeyLess(seps[b], x) ==> KeyLess(blocks[b].es[i].key, x)
  {
    var es := blocks[b].es;
    var e, last, sep := es[i].key, Last(es), seps[b];
    assert GoodKeys(es) && Separates(last, sep) && es[|es| - 1] in es;
    KeyOrder();
    assert e == last || KeyLess(e, last);
    assert sep == last || KeyLess(last, sep);
    hide KeyLess;
  }

  lemma {:induction false} SepsAscend(blocks: seq<DataBlock>, seps: seq<Bytes>, b: nat, c: nat)
    requires Ordered(blocks, seps) && b < c < |blocks|
    ensures KeyLess(seps[b], seps[c])
  {
    hide Ordered, KeyLess;
    if b + 1 < c {
      SepsAscend(blocks, seps, b, c - 1);
    }
    SepStep(blocks, seps, c - 1);
    KeyOrder();
  }

  lemma SepStep(blocks: seq<DataBlock>, seps: seq<Bytes>, b: nat)
    requires Ordered(blocks, seps) && b + 1 < |blocks|
    ensures |seps| == |blocks| && KeyLess(seps[b], seps[b + 1])
  {
    SepBeforeNext(blocks, seps, b);
    assert GoodKeys(blocks[b + 1].es);
    EntryToSep(blocks, seps, b + 1, 0, seps[b]);
  }

  lemma IndexAscends(blocks: seq<DataBlock>, seps: seq<Bytes>)
    requires Ordered(blocks, seps)
    ensures |seps| == |blocks| && Ascending(KeyLess, IndexEntries(blocks, seps))
  {
    var es := IndexEntries(blocks, seps);
    forall i, j | 0 <= i < j < |es| ensures KeyLess(es[i].key, es[j].key) {
      SepsAscend(blocks, seps, i, j);
    }
  }

  // ----- the first entry not before a key -----

  lemma {:induction false} FirstNotBefore(es: seq<KeyValue>, k: Bytes) returns (i: nat)
    ensures IsFirstNotBefore(KeyLess, es, k, i)
  {
    if es == [] || !KeyLess(es[0].key, k) {
      i := 0;
    } else {
      i := FirstNotBefore(es[1..], k);
      i := i + 1;
      assert forall j :: 0 < j <= |es[1..]| ==> es[j] == es[1..][j - 1];
    }
  }

  lemma FirstIsUnique(es: seq<KeyValue>, k: Bytes, i: nat, j: nat)
    requires IsFirstNotBefore(KeyLess, es, k, i) && IsFirstNotBefore(KeyLess, es, k, j)
    ensures i == j
  {
  }

  // The index has led to block b: its separator is the first that is not before k.
  ghost predicate LeadsTo(blocks: seq<DataBlock>, seps: seq<Bytes>, b: nat, k: Bytes) {
    |seps| == |blocks| && IsFirstNotBefore(KeyLess, IndexEntries(blocks, seps), k, b)
  }

  lemma EarlierBlocksBefore(blocks: seq<DataBlock>, seps: seq<Bytes>, b: nat, k: Bytes, j: nat)
    requires Ordered(blocks, seps) && LeadsTo(blocks, seps, b, k) && j < Base(blocks, b) <= |All(blocks)|
    ensures KeyLess(All(blocks)[j].key, k)
  {
    hide Ordered, All, KeyLess;
    var c, i := WhereInAll(blocks, j);
    if b <= c {
      BaseGrows(blocks, b, c);
      assert false;
    }
    assert KeyLess(IndexEntries(blocks, seps)[c].key, k);
    EntryToSep(blocks, seps, c, i, k);
  }

  /** The first entry not before k is in block b, or it is the first of the next block and has
      another user key. */
  lemma FirstInTable(blocks: seq<DataBlock>, seps: seq<Bytes>, b: nat, k: Bytes, i: nat) returns (at: nat)
    requires Ordered(blocks, seps) && LeadsTo(blocks, seps, b, k) && IsInternalKey(k)
    requires b < |blocks| && IsFirstNotBefore(KeyLess, blocks[b].es, k, i)
    ensures IsFirstNotBefore(KeyLess, All(blocks), k, at)
    ensures at < |All(blocks)| ==> IsInternalKey(All(blocks)[at].key)
    ensures i < |blocks[b].es| ==> at < |All(blocks)| && All(blocks)[at] == blocks[b].es[i]
    ensures i == |blocks[b].es| && at < |All(blocks)| ==> UserOf(All(blocks)[at].key) != UserOf(k)
  {
    hide All, KeyLess, Ordered;
    at := Base(blocks, b) + i;
    BaseStep(blocks, b);
    BaseGrows(blocks, b + 1, |blocks|);
    assert blocks[..|blocks|] == blocks;
    forall j | 0 <= j < at ensures KeyLess(All(blocks)[j].key, k) {
      if j < Base(blocks, b) {
        EarlierBlocksBefore(blocks, seps, b, k, j);
      } else {
        AllAt(blocks, b, j - Base(blocks, b));
      }
    }
    if i < |blocks[b].es| {
      AllAt(blocks, b, i);
      InternalKeyAt(blocks, seps, b, i);
    } else if b + 1 < |blocks| {
      AfterGap(blocks, seps, b, k);
      AllAt(blocks, b + 1, 0);
    }
  }

  lemma InternalKeyAt(blocks: seq<DataBlock>, seps: seq<Bytes>, b: nat, i: nat)
    requires Ordered(blocks, seps) && b < |blocks| && i < |blocks[b].es|
    ensures IsInternalKey(blocks[b].es[i].key)
  {
    assert GoodKeys(blocks[b].es) && blocks[b].es[i] in blocks[b].es;
  }

  // k falls between the last entry of block b and its separator.
  lemma AfterGap(blocks: seq<DataBlock>, seps: seq<Bytes>, b: nat, k: Bytes)
    requires Ordered(blocks, seps) && LeadsTo(blocks, seps, b, k) && IsInternalKey(k) && b + 1 < |blocks|
    requires IsFirstNotBefore(KeyLess, blocks[b].es, k, |blocks[b].es|)
    ensures blocks[b + 1].es != [] && IsInternalKey(First(blocks[b + 1].es))
    ensures !KeyLess(First(blocks[b + 1].es), k) && UserOf(First(blocks[b + 1].es)) != UserOf(k)
  {
    var last, sep, next := Last(blocks[b].es), seps[b], First(blocks[b + 1].es);
    assert GoodKeys(blocks[b].es) && GoodKeys(blocks[b + 1].es) && SeparatesFrom(last, sep, next);
    assert blocks[b + 1].es[0] in blocks[b + 1].es;
    assert !KeyLess(IndexEntries(blocks, seps)[b].key, k) && KeyLess(last, k);
    BetweenKeys(last, sep, next, k);
  }

  lemma BetweenKeys(last: Bytes, sep: Bytes, next: Bytes, k: Bytes)
    requires IsInternalKey(last) && IsInternalKey(next) && IsInternalKey(k) && SeparatesFrom(last, sep, next)
    requires KeyLess(last, k) && !KeyLess(sep, k)
    ensures !KeyLess(next, k) && UserOf(next) != UserOf(k)
  {
    TotalOrder(UserOf(sep), UserOf(k));
    TotalOrder(UserOf(next), UserOf(k));
    if BytesLess(UserOf(k), UserOf(sep)) {
      Transitive(UserOf(k), UserOf(sep), UserOf(next));
    }
  }

  lemma PastAllBlocks(blocks: seq<DataBlock>, seps: seq<Bytes>, k: Bytes)
    requires Ordered(blocks, seps) && LeadsTo(blocks, seps, |blocks|, k)
    ensures IsFirstNotBefore(KeyLess, All(blocks), k, |All(blocks)|)
  {
    hide Ordered, All, KeyLess;
    assert blocks[..|blocks|] == blocks;
    forall j | 0 <= j < |All(blocks)| ensures KeyLess(All(blocks)[j].key, k) {
      EarlierBlocksBefore(blocks, seps, |blocks|, k, j);
    }
  }

  // A filter that rejects k rejects every key with its user key.
  lemma FilteredOut(policy: Policy, contents: Bytes, blocks: seq<DataBlock>, b: nat, i: nat, k: Bytes)
    requires FilterCovers(InternalPolicy(policy), contents, blocks) && b < |blocks| && i < |blocks[b].es|
    requires IsInternalKey(k) && IsInternalKey(blocks[b].es[i].key)
    requires !FilterMayMatch(InternalPolicy(policy), OpenFilter(contents), blocks[b].handle.offset, k)
    ensures UserOf(blocks[b].es[i].key) != UserOf(k)
  {
    hide OpenFilter;
    var e := blocks[b].es[i];
    assert e in blocks[b].es;
    assert FilterMayMatch(InternalPolicy(policy), OpenFilter(contents), blocks[b].handle.offset, e.key);
    if UserOf(e.key) == UserOf(k) {
      SameUserSameMatch(policy, OpenFilter(contents), blocks[b].handle.offset, e.key, k);
    }
  }

  lemma SameUserSameMatch(policy: Policy, r: Reader, blockOffset: nat, a: Bytes, b: Bytes)
    requires r.Valid() && StripTag(a) == StripTag(b)
    ensures FilterMayMatch(InternalPolicy(policy), r, blockOffset, a) == FilterMayMatch(InternalPolicy(policy), r, blockOffset, b)
  {
    hide ShiftRight, DecodeFixed32, StripTag;
  }
}

module Table {
  import opened DbFormat
  import opened Coding
  import opened Comparator
  import opened BlockFormat
  import opened BlockReader
  import opened Bloom
  import opened FilterBlock
  import opened TableFormat

  // What a lookup may report: only the first entry not before k, and that one in any case if it
  // has the user key of k.
  ghost predicate Reports(es: seq<KeyValue>, k: Bytes, r: Option<KeyValue>)
    requires IsInternalKey(k)
  {
    forall at: nat :: IsFirstNotBefore(KeyLess, es, k, at) ==> ReportsAt(es, k, at, r)
  }

  ghost predicate ReportsAt(es: seq<KeyValue>, k: Bytes, at: nat, r: Option<KeyValue>)
    requires IsInternalKey(k)
  {
    && (r.Some? ==> at < |es| && r.value == es[at])
    && (at < |es| ==> IsInternalKey(es[at].key) && (UserOf(es[at].key) == UserOf(k) ==> r == Some(es[at])))
  }

  lemma ReportsFirst(es: seq<KeyValue>, k: Bytes, at: nat, r: Option<KeyValue>)
    requires IsInternalKey(k) && IsFirstNotBefore(KeyLess, es, k, at) && ReportsAt(es, k, at, r)
    ensures Reports(es, k, r)
  {
    forall other: nat | IsFirstNotBefore(KeyLess, es, k, other) ensures ReportsAt(es, k, other, r) {
      FirstIsUnique(es, k, at, other);
    }
  }

  // The table has a filter, and it rules the key out for the block.
  ghost predicate FilterRejects(file: Bytes, t: TableFormat.Table, policy: Policy, h: Handle, k: Bytes)
    requires t.filter.Some? ==> t.filter.value.offset + t.filter.value.size <= |file|
  {
    t.filter.Some? &&
    !FilterMayMatch(InternalPolicy(policy), OpenFilter(file[t.filter.value.offset..t.filter.value.offset + t.filter.value.size]), h.offset, k)
  }

  // What the block that the index leads to, if any, has to say about k when the filter is asked first.
  ghost predicate FromOneBlock(file: Bytes, t: TableFormat.Table, policy: Policy, blocks: seq<DataBlock>, seps: seq<Bytes>, k: Bytes,
                               r: Option<KeyValue>)
    requires t.filter.Some? ==> t.filter.value.offset + t.filter.value.size <= |file|
  {
    && (LeadsTo(blocks, seps, |blocks|, k) ==> r == None)
    && forall b: nat, i: nat :: b < |blocks| && LeadsTo(blocks, seps, b, k) && IsFirstNotBefore(KeyLess, blocks[b].es, k, i) ==>
         r == if FilterRejects(file, t, policy, blocks[b].handle, k) || i == |blocks[b].es| then None else Some(blocks[b].es[i])
  }

  lemma OnlyBlock(file: Bytes, t: TableFormat.Table, policy: Policy, blocks: seq<DataBlock>, seps: seq<Bytes>, k: Bytes,
                  b: nat, i: nat, r: Option<KeyValue>)
    requires t.filter.Some? ==> t.filter.value.offset + t.filter.value.size <= |file|
    requires LeadsTo(blocks, seps, b, k) && b < |blocks| && IsFirstNotBefore(KeyLess, blocks[b].es, k, i)
    requires r == if FilterRejects(file, t, policy, blocks[b].handle, k) || i == |blocks[b].es| then None else Some(blocks[b].es[i])
    ensures FromOneBlock(file, t, policy, blocks, seps, k, r)
  {
    hide KeyLess, FilterRejects;
    forall c: nat | LeadsTo(blocks, seps, c, k) ensures c == b {
      FirstIsUnique(IndexEntries(blocks, seps), k, b, c);
    }
    forall j: nat | IsFirstNotBefore(KeyLess, blocks[b].es, k, j) ensures j == i {
      FirstIsUnique(blocks[b].es, k, i, j);
    }
  }

  lemma NoBlock(file: Bytes, t: TableFormat.Table, policy: Policy, blocks: seq<DataBlock>, seps: seq<Bytes>, k: Bytes)
    requires t.filter.Some? ==> t.filter.value.offset + t.filter.value.size <= |file|
    requires LeadsTo(blocks, seps, |blocks|, k)
    ensures FromOneBlock(file, t, policy, blocks, seps, k, None)
  {
    hide KeyLess, FilterRejects;
    forall c: nat | LeadsTo(blocks, seps, c, k) ensures c == |blocks| {
      FirstIsUnique(IndexEntries(blocks, seps), k, |blocks|, c);
    }
  }

  /** Looking a key up by index, filter and block agrees with the sorted list of all entries. */
  method InternalGet(file: Bytes, t: TableFormat.Table, policy: Policy, k: Bytes, ghost blocks: seq<DataBlock>, ghost seps: seq<Bytes>)
    returns (r: Option<KeyValue>)
    requires IsTable(file, t, policy, blocks, seps) && IsInternalKey(k)
    ensures Reports(All(blocks), k, r) && FromOneBlock(file, t, policy, blocks, seps, k, r)
  {
    hide FromOneBlock, Reports, Encodes, Ordered, KeyLess, IsFirstNotBefore, FilterCovers, FilterMayMatch, All, DecodeHandle, EncodeHandle, IsTransitive, Ascending;
    KeyOrder();
    IndexAscends(blocks, seps);
    var indexBlock := file[t.index.offset..t.index.offset + t.index.size];
    var iiter := new Iter(KeyLess, indexBlock, IndexEntries(blocks, seps));
    iiter.Seek(k);
    ghost var b := iiter.at;
    r := None;
    if !iiter.IsValid() {
      PastAllBlocks(blocks, seps, k);
      ReportsFirst(All(blocks), k, |All(blocks)|, r);
      NoBlock(file, t, policy, blocks, seps, k);
      return;
    }
    assert iiter.Value() == EncodeHandle(blocks[b].handle);
    HandleRoundTrip(blocks[b].handle);
    var handle := DecodeHandle(iiter.Value());
    ghost var i := FirstNotBefore(blocks[b].es, k);
    BlockKeysAscend(blocks, seps, b);
    ghost var at := FirstInTable(blocks, seps, b, k, i);
    if t.filter.Some? && handle.Some? {
      var f := t.filter.value;
      var matches := FilterMayMatch(InternalPolicy(policy), OpenFilter(file[f.offset..f.offset + f.size]), handle.value.offset, k);
      if !matches {
        if i < |blocks[b].es| {
          assert blocks[b].es[i] in blocks[b].es;
          FilteredOut(policy, file[f.offset..f.offset + f.size], blocks, b, i, k);
        }
        ReportsFirst(All(blocks), k, at, r);
        OnlyBlock(file, t, policy, blocks, seps, k, b, i, r);
        return;
      }
    }
    var block := file[handle.value.offset..handle.value.offset + handle.value.size];
    var blockIter := new Iter(KeyLess, block, blocks[b].es);
    blockIter.Seek(k);
    FirstIsUnique(blocks[b].es, k, i, blockIter.at);
    if blockIter.IsValid() {
      r := Some(KeyValue(blockIter.key, blockIter.Value()));
    }
    ReportsFirst(All(blocks), k, at, r);
    OnlyBlock(file, t, policy, blocks, seps, k, b, i, r);
  }

  lemma BlockKeysAscend(blocks: seq<DataBlock>, seps: seq<Bytes>, b: nat)
    requires Ordered(blocks, seps) && b < |blocks|
    ensures GoodKeys(blocks[b].es)
  {
  }
}
