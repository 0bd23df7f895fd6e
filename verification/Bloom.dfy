/** The Bloom filter policy: a filter of keys that may match too much but never too little. */
module Bloom {
  import opened DbFormat
  import opened Coding

  // Makes a filter of keys, and asks about a key.
  datatype Policy = Policy(create: seq<Bytes> -> Bytes, mayMatch: (Bytes, Bytes) -> bool)

  ghost predicate NoFalseNegatives(policy: Policy) {
    forall keys: seq<Bytes>, key: Bytes :: key in keys ==> policy.mayMatch(key, policy.create(keys))
  }

  // ----- bits of a byte, least significant first -----

  function TwoTo(n: nat): nat {
    if n == 0 then 1 else 2 * TwoTo(n - 1)
  }

  predicate BitOf(b: nat, i: nat) {
    if i == 0 then b % 2 == 1 else BitOf(b / 2, i - 1)
  }

  // b | (1 << i), for b of n bits.
  function SetBit(b: nat, i: nat, n: nat): (r: nat)
    requires b < TwoTo(n) && i < n
    ensures r < TwoTo(n)
  {
    if i == 0 then b / 2 * 2 + 1 else 2 * SetBit(b / 2, i - 1, n - 1) + b % 2
  }

  lemma {:induction false} SetBitSets(b: nat, i: nat, n: nat, j: nat)
    requires b < TwoTo(n) && i < n
    ensures BitOf(SetBit(b, i, n), j) <==> i == j || BitOf(b, j)
  {
    if i > 0 && j > 0 {
      SetBitSets(b / 2, i - 1, n - 1, j - 1);
      assert SetBit(b, i, n) / 2 == SetBit(b / 2, i - 1, n - 1);
    } else if i == 0 && j > 0 {
      assert SetBit(b, i, n) / 2 == b / 2;
    }
  }

  function WithBit(b: Byte, i: nat): Byte
    requires i < 8
  {
    assert TwoTo(8) == 256 by {
      assert TwoTo(4) == 16;
    }
    SetBit(b, i, 8)
  }

  lemma {:induction false} ZeroHasNoBits(i: nat)
    ensures !BitOf(0, i)
  {
    if i > 0 {
      ZeroHasNoBits(i - 1);
    }
  }

  // ----- bits of a byte string -----

  predicate Has(cells: Bytes, p: nat)
    requires p < 8 * |cells|
  {
    BitOf(cells[p / 8], p % 8)
  }

  function Mark(cells: Bytes, p: nat): (r: Bytes)
    requires p < 8 * |cells|
    ensures |r| == |cells|
  {
    cells[p / 8 := WithBit(cells[p / 8], p % 8)]
  }

  lemma MarkMarks(cells: Bytes, p: nat, q: nat)
    requires p < 8 * |cells| && q < 8 * |cells|
    ensures Has(Mark(cells, p), q) <==> p == q || Has(cells, q)
  {
    if p / 8 == q / 8 {
      assert TwoTo(4) == 16;
      SetBitSets(cells[p / 8], p % 8, 8, q % 8);
    }
  }

  // ----- probes -----

  type Hash = Bytes -> Word

  // Rotate right by 17 bits.
  function Delta(h: Word): Word {
    h / 0x2_0000 + h % 0x2_0000 * 0x8000
  }

  // The hash value of the j-th probe, by double hashing modulo 2^32.
  function Probe(h: Word, j: nat): Word {
    if j == 0 then h else Next(Probe(h, j - 1), Delta(h))
  }

  function Next(probe: Word, delta: Word): Word {
    var a: int, b: int := probe, delta;
    (a + b) % 0x1_0000_0000
  }

  datatype Params = Params(hash: Hash, bitsPerKey: nat, k: nat) {
    // k is clamped when the policy is made.
    predicate Valid() {
      1 <= k <= 30
    }

    function FilterBytes(n: nat): (r: nat)
      ensures r >= 8
    {
      var bits := if n * bitsPerKey < 64 then 64 else n * bitsPerKey;
      (bits + 7) / 8
    }
  }

  // The first n probes of a key marked.
  function MarkProbes(cells: Bytes, h: Word, n: nat): (r: Bytes)
    requires cells != []
    ensures |r| == |cells|
  {
    if n == 0 then cells else Mark(MarkProbes(cells, h, n - 1), Probe(h, n - 1) % (8 * |cells|))
  }

  function MarkKeys(p: Params, cells: Bytes, keys: seq<Bytes>): (r: Bytes)
    requires cells != []
    ensures |r| == |cells|
  {
    if keys == [] then cells
    else MarkProbes(MarkKeys(p, cells, keys[..|keys| - 1]), p.hash(keys[|keys| - 1]), p.k)
  }

  // The marked bits, and the number of probes in the last byte.
  function Created(p: Params, keys: seq<Bytes>): Bytes
    requires p.Valid()
  {
    Cells(p, keys) + [p.k]
  }

  method CreateFilter(p: Params, keys: seq<Bytes>) returns (filter: Bytes)
    requires p.Valid()
    ensures filter == Created(p, keys)
  {
    var bytes := p.FilterBytes(|keys|);
    var bits := 8 * bytes;
    var cells: Bytes := seq(bytes, _ => 0);
    ghost var empty := cells;
    assert keys[..0] == [];
    for i := 0 to |keys|
      invariant cells == MarkKeys(p, empty, keys[..i])
    {
      var h := p.hash(keys[i]);
      var delta := Delta(h);
      var probe := h;
      ghost var before := cells;
      for j := 0 to p.k
        invariant probe == Probe(h, j) && cells == MarkProbes(before, h, j)
      {
        cells := Mark(cells, probe % bits);
        probe := Next(probe, delta);
      }
      assert keys[..i + 1][..i] == keys[..i];
    }
    assert keys[..|keys|] == keys;
    filter := cells + [p.k];
  }

  // ----- what a filter says -----

  // Position q is hit by one of the first n probes of a key.
  ghost predicate Hit(h: Word, n: nat, bits: nat, q: nat)
    requires bits > 0
  {
    exists j :: 0 <= j < n && Probe(h, j) % bits == q
  }

  lemma {:induction false} ProbesMarked(cells: Bytes, h: Word, n: nat, q: nat)
    requires cells != [] && q < 8 * |cells|
    ensures Has(MarkProbes(cells, h, n), q) <==> Has(cells, q) || Hit(h, n, 8 * |cells|, q)
  {
    if n > 0 {
      ProbesMarked(cells, h, n - 1, q);
      MarkMarks(MarkProbes(cells, h, n - 1), Probe(h, n - 1) % (8 * |cells|), q);
    }
  }

  lemma {:induction false} KeysMarked(p: Params, cells: Bytes, keys: seq<Bytes>, q: nat)
    requires cells != [] && q < 8 * |cells|
    ensures Has(MarkKeys(p, cells, keys), q) <==> Has(cells, q) || exists key :: key in keys && Hit(p.hash(key), p.k, 8 * |cells|, q)
  {
    if keys != [] {
      var n := |keys| - 1;
      KeysMarked(p, cells, keys[..n], q);
      ProbesMarked(MarkKeys(p, cells, keys[..n]), p.hash(keys[n]), p.k, q);
      assert forall key :: key in keys <==> key in keys[..n] || key == keys[n];
    }
  }

  ghost predicate SomeHit(p: Params, keys: seq<Bytes>, bits: nat, q: nat)
    requires bits > 0
  {
    exists k :: k in keys && Hit(p.hash(k), p.k, bits, q)
  }

  // The marked part of a filter.
  function Cells(p: Params, keys: seq<Bytes>): (r: Bytes)
    ensures |r| == p.FilterBytes(|keys|)
  {
    MarkKeys(p, seq(p.FilterBytes(|keys|), _ => 0), keys)
  }

  lemma CellSet(p: Params, keys: seq<Bytes>, q: nat)
    requires q < 8 * p.FilterBytes(|keys|)
    ensures Has(Cells(p, keys), q) <==> SomeHit(p, keys, 8 * p.FilterBytes(|keys|), q)
  {
    ZeroHasNoBits(q % 8);
    KeysMarked(p, seq(p.FilterBytes(|keys|), _ => 0), keys, q);
  }

  lemma MatchesByCells(p: Params, cells: Bytes, key: Bytes)
    requires p.Valid() && cells != []
    ensures MayMatch(p, key, cells + [p.k]) <==> AllProbes(p, key, p.k, cells)
  {
    hide AllProbes;
    assert (cells + [p.k])[..|cells|] == cells;
  }

  // Each probe of the key is a probe of some key in keys, too.
  ghost predicate EachProbeHit(p: Params, keys: seq<Bytes>, key: Bytes) {
    var bits := 8 * p.FilterBytes(|keys|);
    forall i :: 0 <= i < p.k ==> SomeHit(p, keys, bits, Probe(p.hash(key), i) % bits)
  }

  lemma ProbesByCells(p: Params, keys: seq<Bytes>, key: Bytes)
    ensures AllProbes(p, key, p.k, Cells(p, keys)) <==> EachProbeHit(p, keys, key)
  {
    hide Has, Probe, SomeHit, Cells;
    var cells, bits := Cells(p, keys), 8 * p.FilterBytes(|keys|);
    assert bits == 8 * |cells|;
    forall i | 0 <= i < p.k ensures Has(cells, Probe(p.hash(key), i) % bits) == SomeHit(p, keys, bits, Probe(p.hash(key), i) % bits) {
      CellSet(p, keys, Probe(p.hash(key), i) % bits);
    }
  }

  /** A filter matches exactly the keys each of whose probes is a probe of some key it was made
      of; in particular it matches all of those. */
  lemma FilterMatchesIff(p: Params, keys: seq<Bytes>, key: Bytes)
    requires p.Valid()
    ensures MayMatch(p, key, Created(p, keys)) <==> EachProbeHit(p, keys, key)
    ensures key in keys ==> MayMatch(p, key, Created(p, keys))
  {
    MatchesByCells(p, Cells(p, keys), key);
    ProbesByCells(p, keys, key);
    hide MayMatch, AllProbes, SomeHit, Cells, Probe;
    if key in keys {
      var bits := 8 * p.FilterBytes(|keys|);
      forall i | 0 <= i < p.k ensures SomeHit(p, keys, bits, Probe(p.hash(key), i) % bits) {
        OwnHit(p, keys, key, bits, i);
      }
    }
  }

  lemma OwnHit(p: Params, keys: seq<Bytes>, key: Bytes, bits: nat, i: nat)
    requires key in keys && i < p.k && bits > 0
    ensures SomeHit(p, keys, bits, Probe(p.hash(key), i) % bits)
  {
    assert Hit(p.hash(key), p.k, bits, Probe(p.hash(key), i) % bits);
  }

  // The policy object.
  function BloomPolicy(p: Params): Policy
    requires p.Valid()
  {
    Policy(keys => Created(p, keys), (key, filter) => MayMatch(p, key, filter))
  }

  lemma BloomNeverMisses(p: Params)
    requires p.Valid()
    ensures NoFalseNegatives(BloomPolicy(p))
  {
    hide Created, MayMatch;
    forall keys: seq<Bytes>, key: Bytes | key in keys ensures BloomPolicy(p).mayMatch(key, BloomPolicy(p).create(keys)) {
      FilterMatchesIff(p, keys, key);
    }
  }

  /** Asks all probes of the key, with the number of probes the filter was made with. */
  method KeyMayMatch(p: Params, key: Bytes, filter: Bytes) returns (r: bool)
    ensures r == MayMatch(p, key, filter)
  {
    var len := |filter|;
    if len < 2 {
      return false;
    }
    var bits := (len - 1) * 8;
    var k := filter[len - 1];
    if k > 30 {
      return true;
    }
    var h := p.hash(key);
    var delta := Delta(h);
    var probe := h;
    for j := 0 to k
      invariant probe == Probe(h, j)
      invariant forall i :: 0 <= i < j ==> Has(filter[..len - 1], Probe(h, i) % bits)
    {
      var position := probe % bits;
      if !BitOf(filter[position / 8], position % 8) {
        assert !Has(filter[..len - 1], Probe(h, j) % bits);
        return false;
      }
      probe := Next(probe, delta);
    }
    r := true;
  }

  predicate MayMatch(p: Params, key: Bytes, filter: Bytes) {
    |filter| >= 2 && (filter[|filter| - 1] > 30 || AllProbes(p, key, filter[|filter| - 1], filter[..|filter| - 1]))
  }

  // The first n probes of the key are marked.
  predicate AllProbes(p: Params, key: Bytes, n: nat, cells: Bytes)
    requires cells != []
  {
    forall i :: 0 <= i < n ==> Has(cells, Probe(p.hash(key), i) % (8 * |cells|))
  }
}
