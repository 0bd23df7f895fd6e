/** The bytewise comparator, the order of encoded internal keys, and the shortening of keys for
    the index of a table. */
module Comparator {
  import opened DbFormat
  import opened Coding

  // ----- bytewise order -----

  // Slice::compare is negative: memcmp on the common length, then the shorter first.
  predicate BytesLess(a: Bytes, b: Bytes) {
    b != [] && (a == [] || a[0] < b[0] || (a[0] == b[0] && BytesLess(a[1..], b[1..])))
  }

  lemma {:induction false} TotalOrder(a: Bytes, b: Bytes)
    ensures BytesLess(a, b) || BytesLess(b, a) || a == b
    ensures BytesLess(a, b) ==> !BytesLess(b, a) && a != b
  {
    if a != [] && b != [] {
      TotalOrder(a[1..], b[1..]);
      assert a == [a[0]] + a[1..] && b == [b[0]] + b[1..];
    }
  }

  lemma {:induction false} Transitive(a: Bytes, b: Bytes, c: Bytes)
    requires BytesLess(a, b) && BytesLess(b, c)
    ensures BytesLess(a, c)
  {
    if a != [] && b != [] && c != [] {
      if a[0] == b[0] == c[0] {
        Transitive(a[1..], b[1..], c[1..]);
      }
    }
  }

  /** The order is decided at the first difference. */
  lemma {:induction false} DecidedAt(a: Bytes, b: Bytes, n: nat)
    requires n <= |a| && n <= |b| && a[..n] == b[..n]
    requires n < |a| && n < |b| ==> a[n] != b[n]
    ensures BytesLess(a, b) <==> n < |b| && (n == |a| || a[n] < b[n])
  {
    if n > 0 {
      assert a[0] == a[..n][0] == b[..n][0] == b[0];
      assert a[1..][..n - 1] == a[..n][1..] == b[..n][1..] == b[1..][..n - 1];
      DecidedAt(a[1..], b[1..], n - 1);
    }
  }

  // The number of keys before key.
  ghost function Rank(keys: set<Bytes>, key: Bytes): nat {
    |set k | k in keys && BytesLess(k, key)|
  }

  /** The keys of any database can be numbered in their order: nothing that only compares keys
      can tell them from their ranks. */
  lemma RankEmbedsOrder(keys: set<Bytes>, a: Bytes, b: Bytes)
    requires a in keys && b in keys
    ensures BytesLess(a, b) <==> Rank(keys, a) < Rank(keys, b)
    ensures a == b <==> Rank(keys, a) == Rank(keys, b)
  {
    TotalOrder(a, b);
    if BytesLess(a, b) {
      RankGrows(keys, a, b);
    } else if BytesLess(b, a) {
      RankGrows(keys, b, a);
    }
  }

  lemma RankGrows(keys: set<Bytes>, a: Bytes, b: Bytes)
    requires a in keys && BytesLess(a, b)
    ensures Rank(keys, a) < Rank(keys, b)
  {
    var before, after := set k | k in keys && BytesLess(k, a), set k | k in keys && BytesLess(k, b);
    forall k | k in before ensures k in after {
      Transitive(k, a, b);
    }
    TotalOrder(a, a);
    assert a in after && a !in before;
    SubsetSize(before, after);
  }

  // ----- shortening user keys -----

  // r cuts s short after a byte that it increments.
  predicate Shortened(s: Bytes, r: Bytes) {
    0 < |r| <= |s| && r[..|r| - 1] == s[..|r| - 1] && s[|r| - 1] < 0xff && r[|r| - 1] == s[|r| - 1] + 1
  }

  lemma ShortenedIsLater(s: Bytes, r: Bytes)
    requires Shortened(s, r)
    ensures BytesLess(s, r)
  {
    DecidedAt(s, r, |r| - 1);
  }

  // The keys first differ at n, and there is a byte between the two.
  predicate LeavesRoom(start: Bytes, limit: Bytes, n: nat) {
    && n < |start| && n < |limit| && start[n] < 0xff && start[n] + 1 < limit[n]
    && forall i :: 0 <= i < n ==> start[i] == limit[i]
  }

  /** A key that separates start from limit, if start is before limit: never before start, and
      before limit.  It differs from start exactly if the first difference leaves room. */
  method FindShortestSeparator(start: Bytes, limit: Bytes) returns (r: Bytes)
    ensures r == start || Shortened(start, r)
    ensures r != start ==> BytesLess(start, r) && BytesLess(r, limit)
    ensures r == start <==> forall n: nat :: !LeavesRoom(start, limit, n)
    ensures r != start ==> LeavesRoom(start, limit, |r| - 1)
  {
    var minLength := if |start| < |limit| then |start| else |limit|;
    var diff := 0;
    while diff < minLength && start[diff] == limit[diff]
      invariant diff <= minLength && forall i :: 0 <= i < diff ==> start[i] == limit[i]
    {
      diff := diff + 1;
    }
    r := start;
    if diff < minLength {
      if start[diff] < 0xff && start[diff] + 1 < limit[diff] {
        r := start[..diff] + [start[diff] + 1];
        assert LeavesRoom(start, limit, diff);
        ShortenedIsLater(start, r);
        DecidedAt(r, limit, diff);
      }
    }
  }

  /** A key not before the given one and, unless that is a run of 0xff, after every key that it
      begins; no shorter key would do. */
  method FindShortSuccessor(key: Bytes) returns (r: Bytes)
    ensures r == key || (Shortened(key, r) && BytesLess(key, r))
    ensures r == key <==> forall i :: 0 <= i < |key| ==> key[i] == 0xff
    ensures r != key ==> forall i :: 0 <= i < |r| - 1 ==> key[i] == 0xff
    ensures r != key ==> forall k: Bytes :: |k| < |r| ==> !BytesLess(key, k)
  {
    for i := 0 to |key|
      invariant forall j :: 0 <= j < i ==> key[j] == 0xff
    {
      if key[i] != 0xff {
        r := key[..i] + [key[i] + 1];
        ShortenedIsLater(key, r);
        forall k: Bytes | |k| < |r| ensures !BytesLess(key, k) {
          NoneAfterRun(key, k);
        }
        return;
      }
    }
    r := key;
  }

  lemma {:induction false} NoneAfterRun(key: Bytes, k: Bytes)
    requires |k| <= |key| && forall j :: 0 <= j < |k| ==> key[j] == 0xff
    ensures !BytesLess(key, k)
  {
    if k != [] {
      NoneAfterRun(key[1..], k[1..]);
    }
  }

  // ----- encoded internal keys -----

  // The user key followed by the eight bytes of the tag.
  function EncodeKey(user: Bytes, tag: Word64): (r: Bytes)
    ensures |r| == |user| + 8
  {
    user + Fixed64(tag)
  }

  predicate IsInternalKey(k: Bytes) {
    |k| >= 8
  }

  function UserOf(k: Bytes): Bytes
    requires IsInternalKey(k)
  {
    k[..|k| - 8]
  }

  function TagOf(k: Bytes): Word64
    requires IsInternalKey(k)
  {
    DecodeFixed64(k[|k| - 8..])
  }

  lemma EncodedParts(user: Bytes, tag: Word64)
    ensures UserOf(EncodeKey(user, tag)) == user && TagOf(EncodeKey(user, tag)) == tag
  {
    Fixed64RoundTrip(tag);
    assert EncodeKey(user, tag)[|user|..] == Fixed64(tag);
  }

  // InternalKeyComparator::Compare is negative.
  predicate KeyLess(a: Bytes, b: Bytes) {
    && IsInternalKey(a) && IsInternalKey(b)
    && (BytesLess(UserOf(a), UserOf(b)) || (UserOf(a) == UserOf(b) && TagOf(a) > TagOf(b)))
  }

  lemma KeyTotal(a: Bytes, b: Bytes)
    requires IsInternalKey(a) && IsInternalKey(b)
    ensures KeyLess(a, b) ==> !KeyLess(b, a)
    ensures !KeyLess(a, b) && !KeyLess(b, a) ==> UserOf(a) == UserOf(b) && TagOf(a) == TagOf(b)
  {
    TotalOrder(UserOf(a), UserOf(b));
  }

  lemma KeyTransitive(a: Bytes, b: Bytes, c: Bytes)
    requires KeyLess(a, b) && KeyLess(b, c)
    ensures KeyLess(a, c)
  {
    if BytesLess(UserOf(a), UserOf(b)) && BytesLess(UserOf(b), UserOf(c)) {
      Transitive(UserOf(a), UserOf(b), UserOf(c));
    }
  }

  /** Encoded internal keys are in the order of the keys of the store: by user key, and of one user
      key the newer first. */
  lemma EncodedOrder(keys: set<Bytes>, a: Bytes, b: Bytes, sa: nat, ka: Kind, sb: nat, kb: Kind)
    requires a in keys && b in keys && sa <= MAX_SEQUENCE && sb <= MAX_SEQUENCE
    ensures var x, y := IKey(Rank(keys, a), sa, ka), IKey(Rank(keys, b), sb, kb);
            && (KeyLess(EncodeKey(a, x.Tag()), EncodeKey(b, y.Tag())) <==> x.Less(y))
            && (a == b && sa > sb ==> x.Less(y))
  {
    var x, y := IKey(Rank(keys, a), sa, ka), IKey(Rank(keys, b), sb, kb);
    EncodedLess(a, x.Tag(), b, y.Tag());
    RankEmbedsOrder(keys, a, b);
    hide Rank, BytesLess, KeyLess, EncodeKey;
  }

  lemma EncodedLess(a: Bytes, ta: Word64, b: Bytes, tb: Word64)
    ensures KeyLess(EncodeKey(a, ta), EncodeKey(b, tb)) <==> BytesLess(a, b) || (a == b && ta > tb)
  {
    EncodedParts(a, ta);
    EncodedParts(b, tb);
    hide BytesLess, UserOf, TagOf, EncodeKey;
  }

  // The tag of the earliest internal key of a user key.
  const EARLIEST_TAG: Word64 := 0xFF_FFFF_FFFF_FFFF * 256 + 1

  /** A separator of internal keys is start, or the earliest internal key of a shorter user key
      strictly between the two; it is start exactly if the bytewise separator is no shorter. */
  method FindShortestKeySeparator(start: Bytes, limit: Bytes) returns (r: Bytes)
    requires IsInternalKey(start) && IsInternalKey(limit)
    ensures IsInternalKey(r) && |r| <= |start|
    ensures r == start || (BytesLess(UserOf(start), UserOf(r)) && BytesLess(UserOf(r), UserOf(limit)))
    ensures r != start ==> Shortened(UserOf(start), UserOf(r)) && TagOf(r) == EARLIEST_TAG
    ensures r == start <==> forall n: nat :: LeavesRoom(UserOf(start), UserOf(limit), n) ==> n + 1 == |UserOf(start)|
  {
    var userStart, userLimit := UserOf(start), UserOf(limit);
    var tmp := FindShortestSeparator(userStart, userLimit);
    r := start;
    if |tmp| < |userStart| && BytesLess(userStart, tmp) {
      r := EncodeKey(tmp, EARLIEST_TAG);
      EncodedParts(tmp, EARLIEST_TAG);
      assert |r| < |start|;
    } else if tmp != userStart {
      assert LeavesRoom(userStart, userLimit, |tmp| - 1);
    }
  }

  method FindShortKeySuccessor(key: Bytes) returns (r: Bytes)
    requires IsInternalKey(key)
    ensures IsInternalKey(r) && |r| <= |key| && (r == key || BytesLess(UserOf(key), UserOf(r)))
    ensures r != key ==> Shortened(UserOf(key), UserOf(r)) && TagOf(r) == EARLIEST_TAG
    ensures r == key <==> forall i :: 0 <= i < |UserOf(key)| - 1 ==> UserOf(key)[i] == 0xff
  {
    var user := UserOf(key);
    var tmp := FindShortSuccessor(user);
    r := key;
    if |tmp| < |user| && BytesLess(user, tmp) {
      r := EncodeKey(tmp, EARLIEST_TAG);
      EncodedParts(tmp, EARLIEST_TAG);
    }
  }
}
