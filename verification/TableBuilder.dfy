/** Building a table: blocks are cut by size, and the index entry of a block waits for the first
    key of the next. */
module TableBuilder {
  import opened DbFormat
  import opened Coding
  import opened Comparator
  import opened BlockFormat
  import opened BlockReader
  import opened Bloom
  import opened TableFormat
  import LogFormat
  import BlockBuilder
  import FilterBlock

  // The blocks written so far are in order and separated; one separator may still be missing.
  ghost predicate OrderedSoFar(blocks: seq<DataBlock>, seps: seq<Bytes>) {
    && |seps| <= |blocks| <= |seps| + 1
    && (forall b :: 0 <= b < |blocks| ==> GoodKeys(blocks[b].es))
    && (forall b :: 0 <= b < |seps| ==> Separates(Last(blocks[b].es), seps[b]))
    && (forall b :: 0 <= b < |blocks| - 1 ==> SeparatesFrom(Last(blocks[b].es), seps[b], First(blocks[b + 1].es)))
  }

  ghost predicate Written(file: Bytes, blocks: seq<DataBlock>) {
    forall b :: 0 <= b < |blocks| ==> BlockAt(file, blocks[b].handle, blocks[b].es) && Encodable(blocks[b].handle)
  }

  // A block at this offset holds the key.
  ghost predicate HasKey(blocks: seq<DataBlock>, offset: nat, key: Bytes) {
    exists b, e :: 0 <= b < |blocks| && e in blocks[b].es && blocks[b].handle.offset == offset && e.key == key
  }

  // Exactly the keys of the blocks written, and of the one being filled, have been given to the filter.
  ghost predicate Filtered(added: FilterBlock.Added, blocks: seq<DataBlock>, offset: nat, es: seq<KeyValue>) {
    forall o, key :: (o, key) in added <==> HasKey(blocks, o, key) || (o == offset && exists e :: e in es && e.key == key)
  }

  /** The filter block has one filter for each 2 KB of the file, made of exactly the keys of the
      blocks that start there. */
  ghost predicate FiltersOf(policy: Policy, contents: Bytes, blocks: seq<DataBlock>, groups: seq<seq<Bytes>>) {
    && (forall i, key :: 0 <= i < |groups| ==> (key in groups[i] <==> exists o: nat :: HasKey(blocks, o, key) && o / 2048 == i))
    && (forall o: nat, key :: HasKey(blocks, o, key) ==> o / 2048 < |groups|)
    && FilterBlock.AnswersFor(InternalPolicy(policy), contents, groups)
  }

  // The entries of the block being filled follow the last block.
  ghost predicate Follows(blocks: seq<DataBlock>, seps: seq<Bytes>, es: seq<KeyValue>)
    requires OrderedSoFar(blocks, seps)
  {
    es != [] ==>
      && GoodKeys(es)
      && |seps| == |blocks|
      && (blocks != [] ==> SeparatesFrom(Last(blocks[|blocks| - 1].es), seps[|blocks| - 1], First(es)))
  }

  // The builder's data between two steps, seen as one value.
  ghost predicate GoodState(file: Bytes, blocks: seq<DataBlock>, seps: seq<Bytes>, es: seq<KeyValue>, index: seq<KeyValue>,
                            pending: Option<Handle>, count: nat, lastKey: Bytes) {
    && OrderedSoFar(blocks, seps) && Written(file, blocks) && Follows(blocks, seps, es)
    && index == IndexEntries(blocks[..|seps|], seps)
    && (pending.Some? <==> |blocks| == |seps| + 1)
    && (pending.Some? ==> pending.value == blocks[|blocks| - 1].handle)
    && count == |All(blocks) + es|
    && (count > 0 ==> lastKey == Last(All(blocks) + es))
  }

  lemma StartState()
    ensures GoodState([], [], [], [], [], None, 0, [])
    ensures Filtered({}, [], 0, [])
  {
  }

  lemma LastIsInternal(es: seq<KeyValue>)
    requires GoodKeys(es)
    ensures es != [] && IsInternalKey(Last(es))
  {
    assert es[|es| - 1] in es;
  }

  // A block waits for its separator: nothing follows it yet, and the last key is its last.
  lemma PendingState(file: Bytes, blocks: seq<DataBlock>, seps: seq<Bytes>, es: seq<KeyValue>, index: seq<KeyValue>,
                     handle: Handle, count: nat, lastKey: Bytes)
    requires GoodState(file, blocks, seps, es, index, Some(handle), count, lastKey)
    ensures blocks != [] && es == [] && count > 0
    ensures blocks[|blocks| - 1].es != [] && lastKey == Last(blocks[|blocks| - 1].es) && IsInternalKey(lastKey)
  {
    LastIsInternal(blocks[|blocks| - 1].es);
    hide IndexEntries, Separates, SeparatesFrom, Ascending, BlockAt;
  }

  // The separator of the last block has been put into the index.
  lemma SeparatedState(file: Bytes, blocks: seq<DataBlock>, seps: seq<Bytes>, es: seq<KeyValue>, index: seq<KeyValue>,
                       handle: Handle, count: nat, lastKey: Bytes, sep: Bytes)
    requires GoodState(file, blocks, seps, es, index, Some(handle), count, lastKey)
    requires IsInternalKey(lastKey) && Separates(lastKey, sep)
    ensures |EncodeHandle(handle)| <= 20
    ensures GoodState(file, blocks, seps + [sep], es, index + [KeyValue(sep, EncodeHandle(handle))], None, count, lastKey)
  {
    PendingState(file, blocks, seps, es, index, handle, count, lastKey);
    HandleLength(file, blocks, |blocks| - 1);
    IndexGrows(blocks, seps, sep);
    SeparatedOrder(blocks, seps, sep);
    hide OrderedSoFar, Written, IndexEntries, EncodeHandle, Separates, SeparatesFrom, GoodKeys, BlockAt, All;
  }

  lemma SeparatedOrder(blocks: seq<DataBlock>, seps: seq<Bytes>, sep: Bytes)
    requires OrderedSoFar(blocks, seps) && |blocks| == |seps| + 1
    requires blocks[|blocks| - 1].es != [] && IsInternalKey(Last(blocks[|blocks| - 1].es)) && Separates(Last(blocks[|blocks| - 1].es), sep)
    ensures OrderedSoFar(blocks, seps + [sep])
  {
    hide Separates, SeparatesFrom, GoodKeys;
  }

  // What a new key has to follow.
  ghost predicate MayFollow(blocks: seq<DataBlock>, seps: seq<Bytes>, es: seq<KeyValue>, key: Bytes) {
    && IsInternalKey(key) && |seps| == |blocks|
    && (es != [] ==> KeyLess(Last(es), key))
    && (es == [] && blocks != [] ==>
          && blocks[|blocks| - 1].es != [] && IsInternalKey(Last(blocks[|blocks| - 1].es))
          && SeparatesFrom(Last(blocks[|blocks| - 1].es), seps[|blocks| - 1], key))
  }

  lemma UnseparatedFollows(file: Bytes, blocks: seq<DataBlock>, seps: seq<Bytes>, es: seq<KeyValue>, index: seq<KeyValue>,
                           count: nat, lastKey: Bytes, key: Bytes)
    requires GoodState(file, blocks, seps, es, index, None, count, lastKey) && IsInternalKey(key)
    requires es == [] ==> blocks == []
    requires count > 0 ==> KeyLess(lastKey, key)
    ensures MayFollow(blocks, seps, es, key)
  {
    hide IndexEntries, Separates, SeparatesFrom, GoodKeys, BlockAt, KeyLess;
    assert es != [] ==> Last(All(blocks) + es) == Last(es);
  }

  lemma SeparatedFollows(file: Bytes, blocks: seq<DataBlock>, seps: seq<Bytes>, es: seq<KeyValue>, index: seq<KeyValue>,
                         handle: Handle, count: nat, lastKey: Bytes, sep: Bytes, key: Bytes)
    requires GoodState(file, blocks, seps, es, index, Some(handle), count, lastKey)
    requires IsInternalKey(lastKey) && IsInternalKey(key) && IsInternalKey(sep) && KeyLess(lastKey, key)
    requires sep == lastKey || (BytesLess(UserOf(lastKey), UserOf(sep)) && BytesLess(UserOf(sep), UserOf(key)))
    ensures Separates(lastKey, sep) && MayFollow(blocks, seps + [sep], es, key)
  {
    PendingState(file, blocks, seps, es, index, handle, count, lastKey);
    hide OrderedSoFar, Written, Follows, IndexEntries, GoodKeys, All;
  }

  lemma AddedState(file: Bytes, blocks: seq<DataBlock>, seps: seq<Bytes>, es: seq<KeyValue>, index: seq<KeyValue>,
                   count: nat, lastKey: Bytes, e: KeyValue)
    requires GoodState(file, blocks, seps, es, index, None, count, lastKey) && MayFollow(blocks, seps, es, e.key)
    ensures GoodState(file, blocks, seps, es + [e], index, None, count + 1, e.key)
  {
    NextFollows(blocks, seps, es, e);
    assert All(blocks) + (es + [e]) == (All(blocks) + es) + [e];
    hide OrderedSoFar, Written, Follows, IndexEntries, All, MayFollow;
  }

  // A new key follows what is there.
  lemma NextFollows(blocks: seq<DataBlock>, seps: seq<Bytes>, es: seq<KeyValue>, e: KeyValue)
    requires OrderedSoFar(blocks, seps) && Follows(blocks, seps, es) && MayFollow(blocks, seps, es, e.key)
    ensures Follows(blocks, seps, es + [e])
  {
    hide SeparatesFrom, OrderedSoFar;
    var all := es + [e];
    KeyOrder();
    hide KeyLess;
    forall i, j | 0 <= i < j < |all| ensures KeyLess(all[i].key, all[j].key) {
      if j == |es| && i < j - 1 {
        assert KeyLess(all[i].key, all[j - 1].key);
      }
    }
  }

  // The block being filled has been written.
  lemma FlushedState(file: Bytes, blocks: seq<DataBlock>, seps: seq<Bytes>, es: seq<KeyValue>, index: seq<KeyValue>,
                     count: nat, lastKey: Bytes, file': Bytes, handle: Handle)
    requires GoodState(file, blocks, seps, es, index, None, count, lastKey) && es != []
    requires file <= file' && BlockAt(file', handle, es) && Encodable(handle)
    ensures GoodState(file', blocks + [DataBlock(handle, es)], seps, [], index, Some(handle), count, lastKey)
    ensures All(blocks + [DataBlock(handle, es)]) == All(blocks) + es
  {
    BlockWritten(file, file', blocks, seps, DataBlock(handle, es));
    hide OrderedSoFar, Written, IndexEntries, GoodKeys, SeparatesFrom, BlockAt, All;
    assert All(blocks) + es + [] == All(blocks) + es;
  }

  // A flushed block joins the blocks written.
  lemma BlockWritten(file: Bytes, file': Bytes, blocks: seq<DataBlock>, seps: seq<Bytes>, d: DataBlock)
    requires OrderedSoFar(blocks, seps) && Written(file, blocks) && d.es != [] && Follows(blocks, seps, d.es)
    requires file <= file' && BlockAt(file', d.handle, d.es) && Encodable(d.handle)
    ensures OrderedSoFar(blocks + [d], seps) && Written(file', blocks + [d])
    ensures (blocks + [d])[..|seps|] == blocks[..|seps|]
    ensures All(blocks + [d]) == All(blocks) + d.es
  {
    hide GoodKeys, Separates, SeparatesFrom, BlockAt;
    forall b | 0 <= b < |blocks| ensures BlockAt(file', blocks[b].handle, blocks[b].es) {
      BlockStays(file, file', blocks[b].handle, blocks[b].es);
    }
    assert (blocks + [d])[..|blocks|] == blocks;
  }

  lemma BlockStays(file: Bytes, file': Bytes, h: Handle, es: seq<KeyValue>)
    requires file <= file' && BlockAt(file, h, es)
    ensures BlockAt(file', h, es)
  {
    hide Encodes;
    assert file'[h.offset..h.offset + h.size] == file[h.offset..h.offset + h.size];
  }

  lemma HandleLength(file: Bytes, blocks: seq<DataBlock>, b: nat)
    requires Written(file, blocks) && b < |blocks|
    ensures |EncodeHandle(blocks[b].handle)| <= 20
  {
    var h := blocks[b].handle;
    VarintLength64(h.offset);
    VarintLength64(h.size);
  }

  lemma IndexGrows(blocks: seq<DataBlock>, seps: seq<Bytes>, sep: Bytes)
    requires |blocks| == |seps| + 1
    ensures IndexEntries(blocks[..|seps|], seps) + [KeyValue(sep, EncodeHandle(blocks[|blocks| - 1].handle))] ==
            IndexEntries(blocks[..|seps| + 1], seps + [sep])
  {
    hide EncodeHandle;
    assert blocks[..|seps| + 1] == blocks;
  }

  lemma KeyFiltered(added: FilterBlock.Added, blocks: seq<DataBlock>, offset: nat, es: seq<KeyValue>, e: KeyValue)
    requires Filtered(added, blocks, offset, es)
    ensures Filtered(added + {(offset, e.key)}, blocks, offset, es + [e])
  {
    hide HasKey;
    var all, more := es + [e], added + {(offset, e.key)};
    forall o, key ensures (o, key) in more <==> HasKey(blocks, o, key) || (o == offset && exists d :: d in all && d.key == key) {
      assert (o, key) in added <==> HasKey(blocks, o, key) || (o == offset && exists d :: d in es && d.key == key);
      assert e in all;
      assert forall d :: d in all <==> d in es || d == e;
    }
  }

  // After a flush the new block's keys are those of the old current block.
  lemma FlushFiltered(added: FilterBlock.Added, blocks: seq<DataBlock>, d: DataBlock, offset: nat)
    requires Filtered(added, blocks, d.handle.offset, d.es)
    ensures Filtered(added, blocks + [d], offset, [])
  {
    forall o, key ensures HasKey(blocks + [d], o, key) <==> HasKey(blocks, o, key) || (o == d.handle.offset && exists e :: e in d.es && e.key == key) {
      LastBlockHas(blocks, d, o, key);
    }
    hide HasKey;
  }

  lemma LastBlockHas(blocks: seq<DataBlock>, d: DataBlock, o: nat, key: Bytes)
    ensures HasKey(blocks + [d], o, key) <==> HasKey(blocks, o, key) || (o == d.handle.offset && exists e :: e in d.es && e.key == key)
  {
    var all := blocks + [d];
    if HasKey(blocks, o, key) {
      var b, e :| 0 <= b < |blocks| && e in blocks[b].es && blocks[b].handle.offset == o && e.key == key;
      assert all[b] == blocks[b];
    }
    if o == d.handle.offset && exists e :: e in d.es && e.key == key {
      var e :| e in d.es && e.key == key;
      assert all[|blocks|] == d && e in all[|blocks|].es;
    }
  }

  // The file may grow at its end.
  lemma GrownState(file: Bytes, blocks: seq<DataBlock>, seps: seq<Bytes>, es: seq<KeyValue>, index: seq<KeyValue>,
                   pending: Option<Handle>, count: nat, lastKey: Bytes, file': Bytes)
    requires GoodState(file, blocks, seps, es, index, pending, count, lastKey) && file <= file'
    ensures GoodState(file', blocks, seps, es, index, pending, count, lastKey)
  {
    hide OrderedSoFar, Follows, BlockAt, IndexEntries, All, Encodable;
    forall b | 0 <= b < |blocks| ensures BlockAt(file', blocks[b].handle, blocks[b].es) {
      BlockStays(file, file', blocks[b].handle, blocks[b].es);
    }
  }

  lemma SuccessorSeparates(last: Bytes, sep: Bytes)
    requires IsInternalKey(last) && IsInternalKey(sep) && (sep == last || BytesLess(UserOf(last), UserOf(sep)))
    ensures Separates(last, sep)
  {
  }

  lemma AddedCovered(policy: Policy, contents: Bytes, groups: seq<seq<Bytes>>, added: FilterBlock.Added, blocks: seq<DataBlock>, offset: nat)
    requires NoFalseNegatives(InternalPolicy(policy))
    requires FilterBlock.Grouped(groups, added) && FilterBlock.AnswersFor(InternalPolicy(policy), contents, groups)
    requires Filtered(added, blocks, offset, [])
    ensures FilterCovers(InternalPolicy(policy), contents, blocks) && FiltersOf(policy, contents, blocks, groups)
  {
    FilterBlock.NothingHidden(InternalPolicy(policy), contents, groups, added);
    hide NoFalseNegatives, FilterBlock.FilterMayMatch, FilterBlock.OpenFilter, FilterBlock.AnswersFor;
    forall b, e | 0 <= b < |blocks| && e in blocks[b].es
      ensures FilterBlock.FilterMayMatch(InternalPolicy(policy), FilterBlock.OpenFilter(contents), blocks[b].handle.offset, e.key)
    {
      assert HasKey(blocks, blocks[b].handle.offset, e.key);
      assert (blocks[b].handle.offset, e.key) in added;
    }
    GroupsOfBlocks(groups, added, blocks, offset);
  }

  lemma GroupsOfBlocks(groups: seq<seq<Bytes>>, added: FilterBlock.Added, blocks: seq<DataBlock>, offset: nat)
    requires FilterBlock.Grouped(groups, added) && Filtered(added, blocks, offset, [])
    ensures forall i, key :: 0 <= i < |groups| ==> (key in groups[i] <==> exists o: nat :: HasKey(blocks, o, key) && o / 2048 == i)
    ensures forall o: nat, key :: HasKey(blocks, o, key) ==> o / 2048 < |groups|
  {
    hide HasKey;
    forall o: nat, key | HasKey(blocks, o, key) ensures o / 2048 < |groups| {
      assert (o, key) in added;
    }
    forall i, key | 0 <= i < |groups| ensures key in groups[i] <==> exists o: nat :: HasKey(blocks, o, key) && o / 2048 == i {
      if key in groups[i] {
        assert FilterBlock.InRange(added, i, key);
        var p :| p in added && FilterBlock.FilterIndex(p.0) == i && p.1 == key;
        assert (p.0, key) in added && HasKey(blocks, p.0, key);
      }
      if o: nat :| HasKey(blocks, o, key) && o / 2048 == i {
        assert (o, key) in added;
        assert FilterBlock.InRange(added, i, key);
      }
    }
  }

  lemma OrderedNow(blocks: seq<DataBlock>, seps: seq<Bytes>)
    requires OrderedSoFar(blocks, seps)
    ensures |seps| == |blocks| ==> Ordered(blocks, seps)
  {
    hide Separates, SeparatesFrom, GoodKeys;
  }

  lemma SeparatedAll(file: Bytes, blocks: seq<DataBlock>, seps: seq<Bytes>, index: seq<KeyValue>, count: nat, lastKey: Bytes)
    requires GoodState(file, blocks, seps, [], index, None, count, lastKey)
    ensures Ordered(blocks, seps) && |seps| == |blocks| && index == IndexEntries(blocks, seps) && Written(file, blocks)
  {
    OrderedNow(blocks, seps);
    hide OrderedSoFar, Ordered, Written, IndexEntries, All;
    assert |seps| == |blocks| && blocks[..|seps|] == blocks;
  }

  lemma FinishedState(file: Bytes, blocks: seq<DataBlock>, seps: seq<Bytes>, index: seq<KeyValue>, count: nat, lastKey: Bytes,
                      file': Bytes, t: TableFormat.Table, policy: Policy, groups: seq<seq<Bytes>>)
    requires GoodState(file, blocks, seps, [], index, None, count, lastKey) && file <= file'
    requires BlockAt(file', t.index, index)
    requires t.filter.Some? ==>
               var h := t.filter.value;
               && h.offset + h.size <= |file| && FilterCovers(InternalPolicy(policy), file[h.offset..h.offset + h.size], blocks)
               && FiltersOf(policy, file[h.offset..h.offset + h.size], blocks, groups)
    ensures IsTable(file', t, policy, blocks, seps)
    ensures t.filter.Some? ==>
              FiltersOf(policy, file'[t.filter.value.offset..t.filter.value.offset + t.filter.value.size], blocks, groups)
  {
    hide FiltersOf, GoodState, Ordered, BlockAt, IndexEntries, FilterCovers, Encodable;
    GrownState(file, blocks, seps, [], index, None, count, lastKey, file');
    SeparatedAll(file', blocks, seps, index, count, lastKey);
    if t.filter.Some? {
      var h := t.filter.value;
      assert file'[h.offset..h.offset + h.size] == file[h.offset..h.offset + h.size];
    }
  }

  class Builder {
    const blockSize: nat
    const policy: Policy
    const crc: LogFormat.Checksum
    const dataBlock: BlockBuilder.Builder
    const indexBlock: BlockBuilder.Builder
    const filterBlock: FilterBlock.Builder?
    var file: Bytes
    var lastKey: Bytes
    var numEntries: nat
    var closed: bool
    var pendingIndexEntry: bool
    var pendingHandle: Handle
    ghost var blocks: seq<DataBlock>
    ghost var seps: seq<Bytes>

    ghost function Repr(): set<object>
      reads this
    {
      {this, dataBlock, indexBlock} + (if filterBlock != null then {filterBlock} else {})
    }

    // Between calls, the index entry of the last block waits for the next key.
    ghost predicate Valid()
      reads Repr()
    {
      Consistent() && (dataBlock.entries == [] && blocks != [] ==> pendingIndexEntry)
    }

    ghost predicate Consistent()
      reads Repr()
    {
      && Core()
      && (filterBlock != null ==>
            && filterBlock.policy == InternalPolicy(policy) && filterBlock.Open() && filterBlock.blockOffset == |file|
            && Filtered(filterBlock.added, blocks, |file|, dataBlock.entries))
    }

    ghost predicate Core()
      reads this, dataBlock, indexBlock
    {
      && dataBlock != indexBlock
      && dataBlock.Valid() && !dataBlock.finished && indexBlock.Valid() && !indexBlock.finished
      && GoodState(file, blocks, seps, dataBlock.entries, indexBlock.entries,
                   if pendingIndexEntry then Some(pendingHandle) else None, numEntries, lastKey)
    }

    // Everything added so far.
    ghost function Entries(): seq<KeyValue>
      reads this, dataBlock
    {
      All(blocks) + dataBlock.entries
    }

    // Room for n more bytes in every block, and offsets of 64 bits.
    ghost predicate Room(n: nat)
      reads Repr()
    {
      && |file| < 0x1_0000_0000_0000_0000
      && dataBlock.CurrentSizeEstimate() + n < 0x1_0000_0000
      && indexBlock.CurrentSizeEstimate() + n < 0x1_0000_0000
    }

    constructor (blockSize: nat, restartInterval: nat, policy: Policy, useFilter: bool, crc: LogFormat.Checksum)
      requires restartInterval > 0 && NoFalseNegatives(policy)
      ensures Valid() && !closed && Entries() == [] && fresh(Repr()) && file == []
      ensures this.policy == policy && this.blockSize == blockSize && (filterBlock != null <==> useFilter)
    {
      hide GoodState, Filtered, NoFalseNegatives, LaidOut, Compressed;
      StartState();
      this.blockSize, this.policy, this.crc := blockSize, policy, crc;
      dataBlock := new BlockBuilder.Builder(restartInterval);
      indexBlock := new BlockBuilder.Builder(1);
      if useFilter {
        InternalNeverMisses(policy);
        filterBlock := new FilterBlock.Builder(InternalPolicy(policy));
      } else {
        filterBlock := null;
      }
      file, lastKey, numEntries, closed, pendingIndexEntry, pendingHandle := [], [], 0, false, false, Handle(0, 0);
      blocks, seps := [], [];
    }

    method Add(key: Bytes, value: Bytes)
      requires Valid() && !closed && IsInternalKey(key)
      requires numEntries > 0 ==> KeyLess(lastKey, key)
      requires Room(|key| + |value| + |lastKey| + 39)
      modifies Repr()
      ensures Valid() && !closed && Entries() == old(Entries()) + [KeyValue(key, value)]
      ensures var es := old(dataBlock.entries) + [KeyValue(key, value)];
              || (dataBlock.entries == es && blocks == old(blocks) && dataBlock.CurrentSizeEstimate() < blockSize)
              || (dataBlock.entries == [] && blocks == old(blocks) + [DataBlock(pendingHandle, es)] && pendingHandle.size >= blockSize)
    {
      hide GoodState, MayFollow, Filtered, Separates, KeyLess, All, LaidOut, Compressed;
      ghost var e := KeyValue(key, value);
      IndexBefore(key);
      AddedState(file, blocks, seps, dataBlock.entries, indexBlock.entries, numEntries, lastKey, e);
      AddEntry(key, value);
      if dataBlock.CurrentSizeEstimate() >= blockSize {
        Flush();
      }
    }

    // The index entry of the last block, shortened now that the next key is known.
    method IndexBefore(key: Bytes)
      requires Core() && IsInternalKey(key) && (dataBlock.entries == [] && blocks != [] ==> pendingIndexEntry)
      requires numEntries > 0 ==> KeyLess(lastKey, key)
      requires indexBlock.CurrentSizeEstimate() + |lastKey| + 39 < 0x1_0000_0000
      modifies this`pendingIndexEntry, this`seps, indexBlock
      ensures Core() && !pendingIndexEntry
      ensures MayFollow(blocks, seps, dataBlock.entries, key)
    {
      hide GoodState, MayFollow, Separates, KeyLess, LaidOut, Compressed;
      if pendingIndexEntry {
        PendingState(file, blocks, seps, dataBlock.entries, indexBlock.entries, pendingHandle, numEntries, lastKey);
        var sep := FindShortestKeySeparator(lastKey, key);
        SeparatedFollows(file, blocks, seps, dataBlock.entries, indexBlock.entries, pendingHandle, numEntries, lastKey, sep, key);
        AddIndexEntry(sep);
      } else {
        UnseparatedFollows(file, blocks, seps, dataBlock.entries, indexBlock.entries, numEntries, lastKey, key);
      }
    }

    method AddEntry(key: Bytes, value: Bytes)
      requires Consistent() && !pendingIndexEntry
      requires GoodState(file, blocks, seps, dataBlock.entries + [KeyValue(key, value)], indexBlock.entries, None, numEntries + 1, key)
      requires dataBlock.CurrentSizeEstimate() + |key| + |value| + 19 < 0x1_0000_0000
      modifies this`lastKey, this`numEntries, dataBlock, filterBlock
      ensures Consistent() && dataBlock.entries == old(dataBlock.entries) + [KeyValue(key, value)]
      ensures dataBlock.CurrentSizeEstimate() <= old(dataBlock.CurrentSizeEstimate()) + |key| + |value| + 19
    {
      hide GoodState, Filtered, LaidOut, Compressed;
      if filterBlock != null {
        KeyFiltered(filterBlock.added, blocks, |file|, dataBlock.entries, KeyValue(key, value));
        filterBlock.AddKey(key);
      }
      lastKey := key;
      numEntries := numEntries + 1;
      dataBlock.Add(key, value);
    }

    method AddIndexEntry(sep: Bytes)
      requires Core() && pendingIndexEntry
      requires IsInternalKey(lastKey) && Separates(lastKey, sep)
      requires indexBlock.CurrentSizeEstimate() + |sep| + 39 < 0x1_0000_0000
      modifies this`pendingIndexEntry, this`seps, indexBlock
      ensures Core() && !pendingIndexEntry && seps == old(seps) + [sep]
      ensures indexBlock.CurrentSizeEstimate() <= old(indexBlock.CurrentSizeEstimate()) + |sep| + 39
    {
      hide GoodState, Filtered, Separates, EncodeHandle, LaidOut, Compressed;
      SeparatedState(file, blocks, seps, dataBlock.entries, indexBlock.entries, pendingHandle, numEntries, lastKey, sep);
      var handleEncoding := EncodeHandle(pendingHandle);
      indexBlock.Add(sep, handleEncoding);
      pendingIndexEntry := false;
      seps := seps + [sep];
    }

    method WriteBlock(block: BlockBuilder.Builder) returns (handle: Handle)
      requires block.Valid() && !block.finished && block.CurrentSizeEstimate() < 0x1_0000_0000
      modifies this`file, block
      ensures handle.offset == old(|file|) && handle.size == old(block.CurrentSizeEstimate())
      ensures old(file) <= file && |file| == handle.offset + handle.size + TRAILER_SIZE
      ensures BlockAt(file, handle, old(block.entries))
      ensures block.Valid() && !block.finished && block.entries == [] && block.CurrentSizeEstimate() == 8
    {
      hide Encodes, LaidOut, Compressed;
      var raw := block.Finish();
      handle := WriteRawBlock(raw);
      block.Reset();
    }

    method WriteRawBlock(contents: Bytes) returns (handle: Handle)
      modifies this`file
      ensures handle == Handle(old(|file|), |contents|)
      ensures old(file) <= file && |file| == handle.offset + handle.size + TRAILER_SIZE
      ensures file[handle.offset..handle.offset + handle.size] == contents
      ensures file[handle.offset + handle.size..] == [0] + Fixed32(LogFormat.Mask(crc(contents + [0])))
    {
      handle := Handle(|file|, |contents|);
      var noCompression: Byte := 0;
      var check := Fixed32(LogFormat.Mask(crc(contents + [noCompression])));
      file := file + contents + [noCompression] + check;
    }

    method Flush()
      requires Consistent() && !closed && dataBlock.CurrentSizeEstimate() < 0x1_0000_0000 && |file| < 0x1_0000_0000_0000_0000
      requires dataBlock.entries == [] && blocks != [] ==> pendingIndexEntry
      requires dataBlock.entries != [] ==> !pendingIndexEntry
      modifies this, dataBlock, filterBlock
      ensures Valid() && Entries() == old(Entries()) && dataBlock.entries == [] && closed == old(closed)
      ensures lastKey == old(lastKey) && numEntries == old(numEntries) && indexBlock.entries == old(indexBlock.entries)
      ensures filterBlock != null ==> filterBlock.FinalSize() == old(filterBlock.FinalSize())
      ensures old(dataBlock.entries) != [] ==>
                && pendingHandle == Handle(old(|file|), old(dataBlock.CurrentSizeEstimate()))
                && blocks == old(blocks) + [DataBlock(pendingHandle, old(dataBlock.entries))]
    {
      hide GoodState, Filtered, BlockAt, All, LaidOut, Compressed;
      if dataBlock.Empty() {
        return;
      }
      ghost var es, before := dataBlock.entries, file;
      pendingHandle := WriteBlock(dataBlock);
      FlushedState(before, blocks, seps, es, indexBlock.entries, numEntries, lastKey, file, pendingHandle);
      if filterBlock != null {
        FlushFiltered(filterBlock.added, blocks, DataBlock(pendingHandle, es), |file|);
      }
      blocks := blocks + [DataBlock(pendingHandle, es)];
      pendingIndexEntry := true;
      if filterBlock != null {
        filterBlock.StartBlock(|file|);
      }
    }

    // The filter block, if there is one, behind the data blocks.
    method WriteFilter() returns (filter: Option<Handle>, ghost groups: seq<seq<Bytes>>)
      requires Consistent() && dataBlock.entries == []
      requires filterBlock != null ==> filterBlock.FinalSize() < 0x1_0000_0000
      modifies this`file, filterBlock
      ensures Core() && (filter.Some? <==> filterBlock != null)
      ensures filter.Some? ==>
                var h := filter.value;
                && h.offset + h.size <= |file| && FilterCovers(InternalPolicy(policy), file[h.offset..h.offset + h.size], blocks)
                && FiltersOf(policy, file[h.offset..h.offset + h.size], blocks, groups)
    {
      hide GoodState, Filtered, FilterCovers, FiltersOf, NoFalseNegatives, FilterBlock.Grouped, FilterBlock.Filters, FilterBlock.AnswersFor, FilterBlock.FilterMayMatch, FilterBlock.OpenFilter, Fixed32, LogFormat.Mask, LaidOut, Compressed;
      filter, groups := None, [];
      if filterBlock != null {
        ghost var added, dataFile := filterBlock.added, file;
        var contents := filterBlock.Finish();
        groups := filterBlock.groups;
        AddedCovered(policy, contents, groups, added, blocks, |file|);
        var handle := WriteRawBlock(contents);
        filter := Some(handle);
        GrownState(dataFile, blocks, seps, [], indexBlock.entries,
                   if pendingIndexEntry then Some(pendingHandle) else None, numEntries, lastKey, file);
      }
    }

    // The index entry of the very last block.
    method IndexLast()
      requires Core() && dataBlock.entries == []
      requires indexBlock.CurrentSizeEstimate() + |lastKey| + 39 < 0x1_0000_0000
      modifies this`pendingIndexEntry, this`seps, indexBlock
      ensures Core() && !pendingIndexEntry && indexBlock.CurrentSizeEstimate() < 0x1_0000_0000
    {
      hide GoodState, Separates, LaidOut, Compressed;
      if pendingIndexEntry {
        PendingState(file, blocks, seps, [], indexBlock.entries, pendingHandle, numEntries, lastKey);
        var sep := FindShortKeySuccessor(lastKey);
        SuccessorSeparates(lastKey, sep);
        AddIndexEntry(sep);
      }
    }

    /** The finished table holds all entries added, in order, with an index and a filter that a
        reader can rely on. */
    method Finish() returns (t: TableFormat.Table, ghost groups: seq<seq<Bytes>>)
      requires Valid() && !closed && Room(|lastKey| + 39)
      requires filterBlock != null ==> filterBlock.FinalSize() < 0x1_0000_0000
      modifies Repr()
      ensures closed && IsTable(file, t, policy, blocks, seps) && All(blocks) == old(Entries())
      ensures t.filter.Some? <==> filterBlock != null
      ensures t.filter.Some? ==>
                FiltersOf(policy, file[t.filter.value.offset..t.filter.value.offset + t.filter.value.size], blocks, groups)
    {
      hide GoodState, Filtered, FilterCovers, FiltersOf, Encodes, Separates, All, IsTable, Written, BlockAt,
           FilterBlock.FilterMayMatch, FilterBlock.OpenFilter, Fixed32, LogFormat.Mask, LaidOut, Compressed;
      if pendingIndexEntry {
        PendingState(file, blocks, seps, dataBlock.entries, indexBlock.entries, pendingHandle, numEntries, lastKey);
      }
      Flush();
      closed := true;
      assert All(blocks) + [] == All(blocks);
      var filter;
      filter, groups := WriteFilter();
      t := WriteIndex(filter, groups);
    }

    // The index block behind the filter.
    method WriteIndex(filter: Option<Handle>, ghost groups: seq<seq<Bytes>>) returns (t: TableFormat.Table)
      requires Core() && dataBlock.entries == [] && indexBlock.CurrentSizeEstimate() + |lastKey| + 39 < 0x1_0000_0000
      requires filter.Some? ==>
                 var h := filter.value;
                 && h.offset + h.size <= |file| && FilterCovers(InternalPolicy(policy), file[h.offset..h.offset + h.size], blocks)
                 && FiltersOf(policy, file[h.offset..h.offset + h.size], blocks, groups)
      modifies this`file, this`pendingIndexEntry, this`seps, indexBlock
      ensures t.filter == filter && IsTable(file, t, policy, blocks, seps)
      ensures t.filter.Some? ==>
                FiltersOf(policy, file[t.filter.value.offset..t.filter.value.offset + t.filter.value.size], blocks, groups)
    {
      hide GoodState, FilterCovers, FiltersOf, Encodes, Separates, All, IsTable, Written, BlockAt, LaidOut, Compressed;
      IndexLast();
      ghost var index, filterFile := indexBlock.entries, file;
      var indexHandle := WriteBlock(indexBlock);
      t := TableFormat.Table(indexHandle, filter);
      FinishedState(filterFile, blocks, seps, index, numEntries, lastKey, file, t, policy, groups);
    }
  }
}
