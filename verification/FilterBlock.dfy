/** The filter block of a table: one filter for the blocks that start in each 2 KB of the file. */
module FilterBlock {
  import opened DbFormat
  import opened Coding
  import opened Bloom

  const FILTER_BASE_LG: Byte := 11

  // The filter that covers a block, by the offset of the block; the literal is 1 << 11.
  function FilterIndex(blockOffset: nat): nat {
    blockOffset / 2048
  }

  function Flat(keys: seq<Bytes>): Bytes {
    if keys == [] then [] else Flat(keys[..|keys| - 1]) + keys[|keys| - 1]
  }

  // Where filter i ends, and its bytes.
  function LimitOf(result: Bytes, offsets: seq<nat>, i: nat): nat
    requires i < |offsets|
  {
    if i + 1 < |offsets| then offsets[i + 1] else |result|
  }

  ghost predicate GoodOffsets(result: Bytes, offsets: seq<nat>) {
    forall i :: 0 <= i < |offsets| ==> offsets[i] <= LimitOf(result, offsets, i) <= |result|
  }

  function FilterOf(result: Bytes, offsets: seq<nat>, i: nat): Bytes
    requires GoodOffsets(result, offsets) && i < |offsets|
  {
    result[offsets[i]..LimitOf(result, offsets, i)]
  }

  ghost predicate FitWords(offsets: seq<nat>) {
    forall i :: 0 <= i < |offsets| ==> offsets[i] < 0x1_0000_0000
  }

  function AsWords(offsets: seq<nat>): (r: seq<Word>)
    requires FitWords(offsets)
    ensures |r| == |offsets| && forall i :: 0 <= i < |offsets| ==> r[i] == offsets[i]
  {
    if offsets == [] then [] else AsWords(offsets[..|offsets| - 1]) + [offsets[|offsets| - 1]]
  }

  // The keys that blocks at these offsets hold.
  type Added = set<(nat, Bytes)>

  // What stands for the keys of one range of offsets; nothing for no keys.
  function FilterFor(policy: Policy, keys: seq<Bytes>): Bytes {
    if keys == [] then [] else policy.create(keys)
  }

  // Some block of the range holds the key.
  ghost predicate InRange(added: Added, i: nat, key: Bytes) {
    exists p :: p in added && FilterIndex(p.0) == i && p.1 == key
  }

  ghost predicate NoneBeyond(added: Added, n: nat) {
    forall p :: p in added ==> FilterIndex(p.0) < n
  }

  // Group i holds exactly the keys of the blocks that start in range i.
  ghost predicate Grouped(groups: seq<seq<Bytes>>, added: Added) {
    && NoneBeyond(added, |groups|)
    && forall i, key :: 0 <= i < |groups| ==> (key in groups[i] <==> InRange(added, i, key))
  }

  // The filters of the groups, one after the other.
  ghost predicate Filters(policy: Policy, groups: seq<seq<Bytes>>, result: Bytes, offsets: seq<nat>) {
    && GoodOffsets(result, offsets) && |offsets| == |groups|
    && forall i :: 0 <= i < |groups| ==> FilterOf(result, offsets, i) == FilterFor(policy, groups[i])
  }

  /** Asked about a key in a block, the filter block answers for the group of that block; where there
      is none it does not rule the key out. */
  ghost predicate AnswersFor(policy: Policy, contents: Bytes, groups: seq<seq<Bytes>>) {
    forall offset: nat, key: Bytes ::
      FilterMayMatch(policy, OpenFilter(contents), offset, key) <==>
      FilterIndex(offset) < |groups| ==> policy.mayMatch(key, FilterFor(policy, groups[FilterIndex(offset)]))
  }

  // ----- reading a filter block -----

  datatype Reader = Reader(contents: Bytes, offset: nat, num: nat, baseLg: nat) {
    predicate Valid() {
      num > 0 ==> offset + 4 * num + 5 <= |contents|
    }
  }

  function OpenFilter(contents: Bytes): (r: Reader)
    ensures r.Valid()
  {
    var n := |contents|;
    if n < 5 then Reader(contents, 0, 0, 0) else
    var lastWord := DecodeFixed32(contents[n - 5..n - 1]);
    if lastWord > n - 5 then Reader(contents, 0, 0, contents[n - 1])
    else Reader(contents, lastWord, (n - 5 - lastWord) / 4, contents[n - 1])
  }

  function ShiftRight(v: nat, n: nat): nat {
    if n == 0 then v else ShiftRight(v / 2, n - 1)
  }

  // Errors are treated as potential matches.
  function FilterMayMatch(policy: Policy, r: Reader, blockOffset: nat, key: Bytes): bool
    requires r.Valid()
  {
    var index := ShiftRight(blockOffset, r.baseLg);
    if index < r.num then
      var at := r.offset + 4 * index;
      var start, limit := DecodeFixed32(r.contents[at..at + 4]), DecodeFixed32(r.contents[at + 4..at + 8]);
      if start <= limit <= r.offset then policy.mayMatch(key, r.contents[start..limit])
      else start != limit
    else true
  }

  // The contents of a finished filter block.
  function Contents(result: Bytes, offsets: seq<Word>): Bytes
    requires |result| < 0x1_0000_0000
  {
    result + Words(offsets) + Fixed32(|result|) + [FILTER_BASE_LG]
  }

  lemma ContentsOpen(result: Bytes, offsets: seq<Word>)
    requires |result| < 0x1_0000_0000
    ensures OpenFilter(Contents(result, offsets)) == Reader(Contents(result, offsets), |result|, |offsets|, 11)
  {
    var contents := Contents(result, offsets);
    var n := |contents|;
    assert contents[n - 5..n - 1] == Fixed32(|result|);
    Fixed32RoundTrip(|result|);
  }

  // The words of the offset array, and the one after it, are found where they were put.
  lemma OffsetRead(result: Bytes, offsets: seq<Word>, i: nat)
    requires |result| < 0x1_0000_0000 && i <= |offsets|
    ensures var contents, at := Contents(result, offsets), |result| + 4 * i;
            && at + 4 <= |contents|
            && DecodeFixed32(contents[at..at + 4]) == if i < |offsets| then offsets[i] else |result|
  {
    var contents, at := Contents(result, offsets), |result| + 4 * i;
    if i < |offsets| {
      WordsAt(offsets, i);
      Fixed32RoundTrip(offsets[i]);
      assert contents[at..at + 4] == Words(offsets)[4 * i..4 * i + 4];
    } else {
      Fixed32RoundTrip(|result|);
      assert contents[at..at + 4] == Fixed32(|result|);
    }
  }

  lemma BaseIs2KB(v: nat)
    ensures ShiftRight(v, 11) == FilterIndex(v)
  {
    assert ShiftRight(v, 11) == ShiftRight(v / 4, 9);
    assert ShiftRight(v / 4, 9) == ShiftRight(v / 16, 7);
    assert ShiftRight(v / 16, 7) == ShiftRight(v / 64, 5);
    assert ShiftRight(v / 64, 5) == ShiftRight(v / 256, 3);
    assert ShiftRight(v / 256, 3) == ShiftRight(v / 1024, 1);
  }

  /** Reading asks the filter of the block's 2 KB range, if there is one. */
  lemma ReadsOwnFilter(policy: Policy, result: Bytes, offsets: seq<nat>, blockOffset: nat, key: Bytes)
    requires |result| < 0x1_0000_0000 && GoodOffsets(result, offsets) && FitWords(offsets)
    ensures FilterMayMatch(policy, OpenFilter(Contents(result, AsWords(offsets))), blockOffset, key) <==>
            FilterIndex(blockOffset) < |offsets| ==> policy.mayMatch(key, FilterOf(result, offsets, FilterIndex(blockOffset)))
  {
    hide *;
    var i := FilterIndex(blockOffset);
    BaseIs2KB(blockOffset);
    if i < |offsets| {
      FilterLimits(result, offsets, i);
      ReadsFilter(policy, result, AsWords(offsets), blockOffset, key, i, offsets[i], LimitOf(result, offsets, i));
    } else {
      ContentsOpen(result, AsWords(offsets));
      NoFilterToAsk(policy, OpenFilter(Contents(result, AsWords(offsets))), blockOffset, key, i);
    }
  }

  lemma FilterLimits(result: Bytes, offsets: seq<nat>, i: nat)
    requires GoodOffsets(result, offsets) && FitWords(offsets) && i < |offsets|
    ensures var start, limit := offsets[i], LimitOf(result, offsets, i);
            && start <= limit <= |result| && FilterOf(result, offsets, i) == result[start..limit]
            && AsWords(offsets)[i] == start
            && limit == if i + 1 < |offsets| then AsWords(offsets)[i + 1] else |result|
  {
  }

  lemma ReadsFilter(policy: Policy, result: Bytes, offsets: seq<Word>, blockOffset: nat, key: Bytes, i: nat, start: nat, limit: nat)
    requires |result| < 0x1_0000_0000 && i < |offsets| && ShiftRight(blockOffset, 11) == i
    requires start == offsets[i] && limit == (if i + 1 < |offsets| then offsets[i + 1] else |result|) && start <= limit <= |result|
    ensures FilterMayMatch(policy, OpenFilter(Contents(result, offsets)), blockOffset, key) == policy.mayMatch(key, result[start..limit])
  {
    hide *;
    ContentsOpen(result, offsets);
    OffsetRead(result, offsets, i);
    OffsetRead(result, offsets, i + 1);
    FilterInContents(result, offsets, start, limit);
    AsksFilter(policy, OpenFilter(Contents(result, offsets)), blockOffset, key, i, start, limit);
  }

  lemma FilterInContents(result: Bytes, offsets: seq<Word>, start: nat, limit: nat)
    requires |result| < 0x1_0000_0000 && start <= limit <= |result|
    ensures limit <= |Contents(result, offsets)| && Contents(result, offsets)[start..limit] == result[start..limit]
  {
  }

  lemma AsksFilter(policy: Policy, r: Reader, blockOffset: nat, key: Bytes, i: nat, start: nat, limit: nat)
    requires r.Valid() && ShiftRight(blockOffset, r.baseLg) == i < r.num && start <= limit <= r.offset
    requires DecodeFixed32(r.contents[r.offset + 4 * i..r.offset + 4 * i + 4]) == start
    requires DecodeFixed32(r.contents[r.offset + 4 * (i + 1)..r.offset + 4 * (i + 1) + 4]) == limit
    ensures FilterMayMatch(policy, r, blockOffset, key) == policy.mayMatch(key, r.contents[start..limit])
  {
    hide ShiftRight, DecodeFixed32;
  }

  lemma NoFilterToAsk(policy: Policy, r: Reader, blockOffset: nat, key: Bytes, i: nat)
    requires r.Valid() && ShiftRight(blockOffset, r.baseLg) == i >= r.num
    ensures FilterMayMatch(policy, r, blockOffset, key)
  {
    hide ShiftRight, DecodeFixed32;
  }

  // ----- building one -----

  class Builder {
    const policy: Policy
    // The waiting keys end to end, and where each starts.
    var keys: Bytes
    var start: seq<nat>
    var result: Bytes
    var filterOffsets: seq<nat>
    ghost var waiting: seq<Bytes>
    // The keys of the filters so far.
    ghost var groups: seq<seq<Bytes>>
    ghost var added: Added
    ghost var blockOffset: nat

    ghost predicate Valid()
      reads this
    {
      && NoFalseNegatives(policy)
      && keys == Flat(waiting) && |start| == |waiting|
      && (forall i :: 0 <= i < |start| ==> start[i] == |Flat(waiting[..i])|)
      && Filters(policy, groups, result, filterOffsets)
      && Grouped(groups + [waiting], added)
    }

    // Ready to take the keys of the block at blockOffset.
    ghost predicate Open()
      reads this
    {
      Valid() && FilterIndex(blockOffset) == |filterOffsets|
    }

    constructor (policy: Policy)
      requires NoFalseNegatives(policy)
      ensures Open() && added == {} && blockOffset == 0 && this.policy == policy
    {
      this.policy := policy;
      keys, start, result, filterOffsets := [], [], [], [];
      waiting, groups, added, blockOffset := [], [], {}, 0;
    }

    // The bytes of all filters once the waiting keys have theirs.
    ghost function FinalSize(): nat
      reads this
    {
      |result| + if waiting == [] then 0 else |policy.create(waiting)|
    }

    method StartBlock(offset: nat)
      requires Open() && offset >= blockOffset
      modifies this
      ensures FinalSize() == old(FinalSize())
      ensures Open() && blockOffset == offset && added == old(added)
    {
      hide Grouped, Filters, Flat, NoFalseNegatives;
      while FilterIndex(offset) > |filterOffsets|
        invariant Valid() && added == old(added) && |filterOffsets| <= FilterIndex(offset) && FinalSize() == old(FinalSize())
        decreases FilterIndex(offset) - |filterOffsets|
      {
        GenerateFilter();
      }
      blockOffset := offset;
    }

    method AddKey(key: Bytes)
      requires Open()
      modifies this
      ensures Open() && blockOffset == old(blockOffset) && added == old(added) + {(blockOffset, key)}
    {
      assert |groups| == |filterOffsets|;
      hide Filters, Grouped, NoFalseNegatives;
      KeyJoins(groups, waiting, added, blockOffset, key);
      assert (waiting + [key])[..|waiting|] == waiting;
      forall i | 0 <= i < |waiting| ensures (waiting + [key])[..i] == waiting[..i] {
      }
      start := start + [|keys|];
      keys := keys + key;
      waiting := waiting + [key];
      added := added + {(blockOffset, key)};
    }

    method GenerateFilter()
      requires Valid()
      modifies this
      ensures Valid() && added == old(added) && blockOffset == old(blockOffset)
      ensures |filterOffsets| == old(|filterOffsets|) + 1 && start == [] && waiting == []
      ensures groups == old(groups) + [old(waiting)]
      ensures result == old(result) + if old(waiting) == [] then [] else policy.create(old(waiting))
    {
      var numKeys := |start|;
      NextFilter(policy, groups, result, filterOffsets, waiting);
      NextGroup(groups + [waiting], added);
      hide Grouped, Filters, NoFalseNegatives;
      if numKeys == 0 {
        groups := groups + [waiting];
        filterOffsets := filterOffsets + [|result|];
        assert result + [] == result;
        return;
      }
      var ends := start + [|keys|];
      var tmpKeys: seq<Bytes> := [];
      for i := 0 to numKeys
        invariant unchanged(this)
        invariant tmpKeys == waiting[..i]
      {
        KeyInFlat(waiting, i);
        assert i + 1 == |waiting| ==> waiting[..i + 1] == waiting;
        tmpKeys := tmpKeys + [keys[ends[i]..ends[i + 1]]];
      }
      assert tmpKeys == waiting;
      groups := groups + [waiting];
      filterOffsets := filterOffsets + [|result|];
      result := result + policy.create(tmpKeys);
      keys, start := [], [];
      waiting := [];
    }

    /** The finished block: reading it back asks one filter for each range of offsets, made of
        exactly the keys of the blocks that start there. */
    method Finish() returns (contents: Bytes)
      requires Valid()
      requires FinalSize() < 0x1_0000_0000
      modifies this
      ensures groups == (if old(waiting) == [] then old(groups) else old(groups) + [old(waiting)])
      ensures Grouped(groups, old(added)) && AnswersFor(policy, contents, groups)
    {
      hide Grouped, Filters, GoodOffsets, Flat, NoFalseNegatives, OpenFilter, AnswersFor;
      if start != [] {
        GenerateFilter();
      }
      NothingWaits(groups, waiting, added);
      ghost var made := groups;
      var n := |result|;
      OffsetsFit(policy, groups, result, filterOffsets);
      ghost var filters, offsets := result, filterOffsets;
      ghost var words := AsWords(filterOffsets);
      for i := 0 to |filterOffsets|
        invariant filterOffsets == offsets && |words| == |offsets| && added == old(added) && groups == made
        invariant result == filters + Words(words[..i])
      {
        assert words[..i + 1][..i] == words[..i] && filterOffsets[i] == words[i];
        result := result + Fixed32(filterOffsets[i]);
      }
      result := result + Fixed32(n);
      result := result + [FILTER_BASE_LG];
      contents := result;
      assert words[..|words|] == words;
      assert contents == Contents(filters, words);
      FiltersAnswer(policy, groups, filters, offsets);
    }
  }

  lemma OffsetsFit(policy: Policy, groups: seq<seq<Bytes>>, result: Bytes, offsets: seq<nat>)
    requires Filters(policy, groups, result, offsets)
    ensures |result| < 0x1_0000_0000 ==> FitWords(offsets)
  {
  }

  lemma FiltersAnswer(policy: Policy, groups: seq<seq<Bytes>>, result: Bytes, offsets: seq<nat>)
    requires |result| < 0x1_0000_0000 && FitWords(offsets) && Filters(policy, groups, result, offsets)
    ensures AnswersFor(policy, Contents(result, AsWords(offsets)), groups)
  {
    hide GoodOffsets, FilterMayMatch, Contents, OpenFilter, FilterFor;
    forall offset: nat, key: Bytes
      ensures FilterMayMatch(policy, OpenFilter(Contents(result, AsWords(offsets))), offset, key) <==>
              FilterIndex(offset) < |groups| ==> policy.mayMatch(key, FilterFor(policy, groups[FilterIndex(offset)]))
    {
      ReadsOwnFilter(policy, result, offsets, offset, key);
    }
  }

  /** No key is ruled out for a block that holds it. */
  lemma NothingHidden(policy: Policy, contents: Bytes, groups: seq<seq<Bytes>>, added: Added)
    requires NoFalseNegatives(policy) && Grouped(groups, added) && AnswersFor(policy, contents, groups)
    ensures forall p :: p in added ==> FilterMayMatch(policy, OpenFilter(contents), p.0, p.1)
  {
    hide FilterMayMatch, OpenFilter;
    forall p | p in added ensures FilterMayMatch(policy, OpenFilter(contents), p.0, p.1) {
      var i := FilterIndex(p.0);
      assert InRange(added, i, p.1);
      assert p.1 in groups[i];
    }
  }

  lemma KeyJoins(groups: seq<seq<Bytes>>, waiting: seq<Bytes>, added: Added, offset: nat, key: Bytes)
    requires Grouped(groups + [waiting], added) && FilterIndex(offset) == |groups|
    ensures Grouped(groups + [waiting + [key]], added + {(offset, key)})
  {
    hide FilterIndex;
    var before, after, more := groups + [waiting], groups + [waiting + [key]], added + {(offset, key)};
    forall i, k | 0 <= i < |after| ensures k in after[i] <==> InRange(more, i, k) {
      assert k in before[i] <==> InRange(added, i, k);
      assert (offset, key) in more;
    }
  }

  // A new group has no keys yet.
  lemma NextGroup(groups: seq<seq<Bytes>>, added: Added)
    requires Grouped(groups, added)
    ensures Grouped(groups + [[]], added)
  {
    hide FilterIndex;
    forall i, k | 0 <= i < |groups + [[]]| ensures k in (groups + [[]])[i] <==> InRange(added, i, k) {
      if i < |groups| {
        assert k in groups[i] <==> InRange(added, i, k);
      }
    }
  }

  lemma NothingWaits(groups: seq<seq<Bytes>>, waiting: seq<Bytes>, added: Added)
    requires Grouped(groups + [waiting], added) && waiting == []
    ensures Grouped(groups, added)
  {
    hide FilterIndex;
    var all := groups + [waiting];
    forall p | p in added ensures FilterIndex(p.0) < |groups| {
      assert InRange(added, FilterIndex(p.0), p.1);
      assert p.1 in all[FilterIndex(p.0)];
    }
    forall i, k | 0 <= i < |groups| ensures k in groups[i] <==> InRange(added, i, k) {
      assert k in all[i] <==> InRange(added, i, k);
    }
  }

  // Closing the current filter.
  lemma NextFilter(policy: Policy, groups: seq<seq<Bytes>>, result: Bytes, offsets: seq<nat>, waiting: seq<Bytes>)
    requires Filters(policy, groups, result, offsets)
    ensures Filters(policy, groups + [waiting], result + FilterFor(policy, waiting), offsets + [|result|])
  {
    var filter := FilterFor(policy, waiting);
    var result', offsets' := result + filter, offsets + [|result|];
    forall i | 0 <= i < |offsets'| ensures offsets'[i] <= LimitOf(result', offsets', i) <= |result'| {
      assert i < |offsets| ==> offsets[i] <= LimitOf(result, offsets, i) <= |result|;
    }
    forall i | 0 <= i < |groups + [waiting]| ensures FilterOf(result', offsets', i) == FilterFor(policy, (groups + [waiting])[i]) {
      if i < |offsets| {
        assert FilterOf(result', offsets', i) == FilterOf(result, offsets, i);
      }
    }
  }

  lemma {:induction false} FlatPrefix(keys: seq<Bytes>, n: nat)
    requires n <= |keys|
    ensures Flat(keys[..n]) <= Flat(keys)
  {
    if n < |keys| {
      FlatPrefix(keys[..|keys| - 1], n);
      assert keys[..|keys| - 1][..n] == keys[..n];
    } else {
      assert keys[..n] == keys;
    }
  }

  lemma KeyInFlat(keys: seq<Bytes>, i: nat)
    requires i < |keys|
    ensures |Flat(keys[..i])| <= |Flat(keys[..i + 1])| <= |Flat(keys)|
    ensures Flat(keys)[|Flat(keys[..i])|..|Flat(keys[..i + 1])|] == keys[i]
  {
    FlatPrefix(keys, i + 1);
    assert keys[..i + 1][..i] == keys[..i];
    assert Flat(keys[..i + 1])[|Flat(keys[..i])|..] == keys[i];
  }
}
