/** Fixed-width and variable-length integers. */
module Coding {
  import opened DbFormat

  type Word = w: int | 0 <= w < 0x1_0000_0000
  type Word64 = w: int | 0 <= w < 0x1_0000_0000_0000_0000

  // ----- fixed width, little-endian -----

  function Fixed32(w: Word): Bytes {
    [w % 256, w / 0x100 % 256, w / 0x1_0000 % 256, w / 0x100_0000]
  }

  function DecodeFixed32(b: Bytes): Word
    requires |b| >= 4
  {
    var b0: int, b1: int, b2: int, b3: int := b[0], b[1], b[2], b[3];
    b0 + b1 * 0x100 + b2 * 0x1_0000 + b3 * 0x100_0000
  }

  lemma Fixed32RoundTrip(w: Word)
    ensures DecodeFixed32(Fixed32(w)) == w
  {
    assert w / 0x100 == w / 0x1_0000 * 0x100 + w / 0x100 % 0x100;
    assert w / 0x1_0000 == w / 0x100_0000 * 0x100 + w / 0x1_0000 % 0x100;
  }

  lemma FixedOfDecoded(b: Bytes)
    requires |b| == 4
    ensures Fixed32(DecodeFixed32(b)) == b
  {
    var b0: int, b1: int, b2: int, b3: int := b[0], b[1], b[2], b[3];
    var w := DecodeFixed32(b);
    assert w / 0x100 == b1 + b2 * 0x100 + b3 * 0x1_0000;
    assert w / 0x1_0000 == b2 + b3 * 0x100;
    assert w / 0x100_0000 == b3;
  }

  // An array of 32-bit words.
  function Words(words: seq<Word>): (r: Bytes)
    ensures |r| == 4 * |words|
  {
    if words == [] then [] else Words(words[..|words| - 1]) + Fixed32(words[|words| - 1])
  }

  lemma {:induction false} WordsAt(words: seq<Word>, j: nat)
    requires j < |words|
    ensures Words(words)[4 * j..4 * j + 4] == Fixed32(words[j])
  {
    var n := |words| - 1;
    if j < n {
      WordsAt(words[..n], j);
      var init := Words(words[..n]);
      assert (init + Fixed32(words[n]))[4 * j..4 * j + 4] == init[4 * j..4 * j + 4];
    }
  }

  function Fixed64(w: Word64): Bytes {
    Fixed32(w % 0x1_0000_0000) + Fixed32(w / 0x1_0000_0000)
  }

  function DecodeFixed64(b: Bytes): Word64
    requires |b| >= 8
  {
    DecodeFixed32(b[..4]) + DecodeFixed32(b[4..8]) * 0x1_0000_0000
  }

  lemma Fixed64RoundTrip(w: Word64)
    ensures DecodeFixed64(Fixed64(w)) == w
  {
    var low: Word, high: Word := w % 0x1_0000_0000, w / 0x1_0000_0000;
    Fixed32RoundTrip(low);
    Fixed32RoundTrip(high);
    assert Fixed64(w)[..4] == Fixed32(low) && Fixed64(w)[4..8] == Fixed32(high);
  }

  // ----- variable length: seven bits to a byte, the last byte below 128 -----

  function Varint(v: nat): (r: Bytes)
    ensures r != []
  {
    if v < 128 then [v] else [128 + v % 128] + Varint(v / 128)
  }

  // The value and the length of a varint of at most max bytes.
  function DecodeVarint(b: Bytes, max: nat): Option<(nat, nat)>
    decreases max
  {
    if max == 0 || b == [] then None
    else if b[0] < 128 then Some((b[0], 1))
    else
      match DecodeVarint(b[1..], max - 1)
      case None => None
      case Some((v, n)) => Some((b[0] - 128 + 128 * v, n + 1))
  }

  lemma {:induction false} VarintRoundTrip(v: nat, max: nat, rest: Bytes)
    requires |Varint(v)| <= max
    ensures DecodeVarint(Varint(v) + rest, max) == Some((v, |Varint(v)|))
  {
    var b := Varint(v) + rest;
    if v >= 128 {
      assert b[1..] == Varint(v / 128) + rest;
      VarintRoundTrip(v / 128, max - 1, rest);
    }
  }

  lemma VarintStep(v: nat)
    ensures Varint(v) == if v < 128 then [v] else [128 + v % 128] + Varint(v / 128)
  {
  }

  lemma VarintSteps(v: Word)
    ensures v / 0x80 / 128 == v / 0x4000 && v / 0x4000 / 128 == v / 0x20_0000 && v / 0x20_0000 / 128 == v / 0x1000_0000
    ensures v / 0x1000_0000 < 16
    ensures Varint(v) == if v < 128 then [v] else [128 + v % 128] + Varint(v / 0x80)
    ensures v >= 0x80 ==> Varint(v / 0x80) == if v < 0x4000 then [v / 0x80] else [128 + v / 0x80 % 128] + Varint(v / 0x4000)
    ensures v >= 0x4000 ==> Varint(v / 0x4000) == if v < 0x20_0000 then [v / 0x4000] else [128 + v / 0x4000 % 128] + Varint(v / 0x20_0000)
    ensures v >= 0x20_0000 ==> Varint(v / 0x20_0000) == if v < 0x1000_0000 then [v / 0x20_0000] else [128 + v / 0x20_0000 % 128] + Varint(v / 0x1000_0000)
    ensures v >= 0x1000_0000 ==> Varint(v / 0x1000_0000) == [v / 0x1000_0000]
  {
    VarintStep(v);
    VarintStep(v / 0x80);
    VarintStep(v / 0x4000);
    VarintStep(v / 0x20_0000);
    VarintStep(v / 0x1000_0000);
    hide Varint;
  }

  lemma VarintLength32(v: Word)
    ensures |Varint(v)| <= 5
  {
    hide Varint;
    VarintSteps(v);
  }

  function Power128(n: nat): nat {
    if n == 0 then 1 else 128 * Power128(n - 1)
  }

  lemma {:induction false} VarintLength(v: nat, max: nat)
    requires max > 0 && v < Power128(max)
    ensures |Varint(v)| <= max
  {
    if v >= 128 {
      VarintLength(v / 128, max - 1);
    }
  }

  lemma VarintLength64(v: Word64)
    ensures |Varint(v)| <= 10
  {
    assert Power128(10) >= 0x1_0000_0000_0000_0000 by {
      assert Power128(5) == 0x8_0000_0000;
      assert Power128(10) == 128 * 128 * 128 * 128 * 128 * Power128(5);
    }
    VarintLength(v, 10);
  }

  /** EncodeVarint32, unrolled by length. */
  method EncodeVarint32(v: Word) returns (r: Bytes)
    ensures r == Varint(v)
  {
    hide Varint;
    VarintSteps(v);
    if v < 0x80 {
      r := [v];
    } else if v < 0x4000 {
      r := [v % 128 + 128, v / 0x80];
    } else if v < 0x20_0000 {
      r := [v % 128 + 128, v / 0x80 % 128 + 128, v / 0x4000];
    } else if v < 0x1000_0000 {
      r := [v % 128 + 128, v / 0x80 % 128 + 128, v / 0x4000 % 128 + 128, v / 0x20_0000];
    } else {
      r := [v % 128 + 128, v / 0x80 % 128 + 128, v / 0x4000 % 128 + 128, v / 0x20_0000 % 128 + 128, v / 0x1000_0000];
    }
  }

  lemma {:induction false} DecodedLength(b: Bytes, max: nat)
    ensures match DecodeVarint(b, max) case None => true case Some((v, n)) => 0 < n <= |b|
  {
    if max > 0 && b != [] && b[0] >= 128 {
      DecodedLength(b[1..], max - 1);
    }
  }

  // The 32-bit varint at start and the position after it.
  function VarintAt(b: Bytes, start: nat, limit: nat): (r: Option<(Word, nat)>)
    requires start <= limit <= |b|
    ensures r.Some? ==> start < r.value.1 <= limit
  {
    DecodedLength(b[start..limit], 5);
    match DecodeVarint(b[start..limit], 5)
    case None => None
    case Some((v, n)) => Some((v % 0x1_0000_0000, start + n))
  }

  lemma VarintAtStart(b: Bytes, start: nat, limit: nat, v: Word, rest: Bytes)
    requires start <= limit <= |b| && b[start..limit] == Varint(v) + rest
    ensures VarintAt(b, start, limit) == Some((v, start + |Varint(v)|))
    ensures start + |Varint(v)| <= limit && b[start + |Varint(v)|..limit] == rest
  {
    hide DecodeVarint, Varint;
    VarintLength32(v);
    VarintRoundTrip(v, 5, rest);
    assert b[start..limit][|Varint(v)|..] == rest;
  }

  lemma OneByteVarint(b: Bytes, start: nat, limit: nat)
    requires start < limit <= |b| && b[start] < 128
    ensures VarintAt(b, start, limit) == Some((b[start], start + 1))
  {
    assert b[start..limit][0] == b[start];
  }

  /** GetVarint32Ptr: at most five bytes before limit, summed modulo 2^32. */
  method GetVarint32(b: Bytes, start: nat, limit: nat) returns (r: Option<(Word, nat)>)
    requires start <= limit <= |b|
    ensures r == VarintAt(b, start, limit)
  {
    hide DecodeVarint;
    var p, result, weight, shift := start, 0, 1, 0;
    while shift <= 28 && p < limit
      invariant 0 <= shift <= 35 && shift % 7 == 0 && p == start + shift / 7 <= limit
      invariant match DecodeVarint(b[p..limit], 5 - shift / 7)
                case None => DecodeVarint(b[start..limit], 5) == None
                case Some((v, n)) => DecodeVarint(b[start..limit], 5) == Some((result + weight * v, p - start + n))
      decreases 35 - shift
    {
      var byte := b[p];
      DecodeStep(b, p, limit, 5 - shift / 7);
      p := p + 1;
      if byte >= 128 {
        Carry(result, weight, byte, b[p..limit], 4 - shift / 7);
        result := result + (byte - 128) * weight;
        weight := weight * 128;
        shift := shift + 7;
      } else {
        return Some(((result + weight * byte) % 0x1_0000_0000, p));
      }
    }
    NothingDecoded(b[p..limit], 5 - shift / 7);
    r := None;
  }

  lemma DecodeStep(b: Bytes, p: nat, limit: nat, max: nat)
    requires p < limit <= |b| && max > 0
    ensures DecodeVarint(b[p..limit], max) ==
            if b[p] < 128 then Some((b[p], 1))
            else match DecodeVarint(b[p + 1..limit], max - 1)
                 case None => None
                 case Some((v, n)) => Some((b[p] - 128 + 128 * v, n + 1))
  {
    assert b[p..limit][1..] == b[p + 1..limit];
  }

  lemma NothingDecoded(b: Bytes, max: nat)
    requires b == [] || max == 0
    ensures DecodeVarint(b, max) == None
  {
  }

  lemma Carry(result: int, weight: int, byte: int, rest: Bytes, max: nat)
    ensures match DecodeVarint(rest, max)
            case None => true
            case Some((v, n)) => result + weight * (byte - 128 + 128 * v) == result + (byte - 128) * weight + weight * 128 * v
  {
    hide DecodeVarint;
    if DecodeVarint(rest, max).Some? {
      var v := DecodeVarint(rest, max).value.0;
      assert weight * (byte - 128 + 128 * v) == weight * (byte - 128) + weight * (128 * v);
      assert weight * (128 * v) == weight * 128 * v;
    }
  }

  /** EncodeVarint64, a loop. */
  method EncodeVarint64(value: nat) returns (r: Bytes)
    ensures r == Varint(value)
  {
    var v := value;
    r := [];
    while v >= 128
      invariant r + Varint(v) == Varint(value)
    {
      assert r + ([128 + v % 128] + Varint(v / 128)) == (r + [128 + v % 128]) + Varint(v / 128);
      r := r + [128 + v % 128];
      v := v / 128;
    }
    r := r + [v];
  }

  // ----- consuming the input -----

  function TakeVarint32(input: Bytes): (r: Option<(Word, Bytes)>)
    ensures r.Some? ==> |r.value.1| < |input|
  {
    DecodedLength(input, 5);
    match DecodeVarint(input, 5)
    case None => None
    case Some((v, n)) => Some((v % 0x1_0000_0000, input[n..]))
  }

  function TakeVarint64(input: Bytes): (r: Option<(Word64, Bytes)>)
    ensures r.Some? ==> |r.value.1| < |input|
  {
    DecodedLength(input, 10);
    match DecodeVarint(input, 10)
    case None => None
    case Some((v, n)) => Some((v % 0x1_0000_0000_0000_0000, input[n..]))
  }

  lemma Varint32Taken(v: Word, rest: Bytes)
    ensures TakeVarint32(Varint(v) + rest) == Some((v, rest))
  {
    hide DecodeVarint, Varint;
    VarintLength32(v);
    VarintRoundTrip(v, 5, rest);
    assert (Varint(v) + rest)[|Varint(v)|..] == rest;
  }

  lemma Varint64Taken(v: Word64, rest: Bytes)
    ensures TakeVarint64(Varint(v) + rest) == Some((v, rest))
  {
    hide DecodeVarint, Varint;
    VarintLength64(v);
    VarintRoundTrip(v, 10, rest);
    assert (Varint(v) + rest)[|Varint(v)|..] == rest;
  }

  // ----- length-prefixed strings -----

  function LengthPrefixed(b: Bytes): Bytes {
    Varint(|b|) + b
  }

  function TakeString(input: Bytes): (r: Option<(Bytes, Bytes)>)
    ensures r.Some? ==> |r.value.1| < |input|
  {
    match TakeVarint32(input)
    case None => None
    case Some((len, rest)) => if |rest| >= len then Some((rest[..len], rest[len..])) else None
  }

  lemma StringTaken(s: Bytes, rest: Bytes)
    requires |s| < 0x1_0000_0000
    ensures TakeString(LengthPrefixed(s) + rest) == Some((s, rest))
  {
    Varint32Taken(|s|, s + rest);
    assert LengthPrefixed(s) + rest == Varint(|s|) + (s + rest);
    assert (s + rest)[..|s|] == s && (s + rest)[|s|..] == rest;
  }

  // ----- what is read does not depend on what follows it -----

  lemma {:induction false} VarintExtends(b: Bytes, max: nat, more: Bytes)
    requires DecodeVarint(b, max).Some?
    ensures DecodeVarint(b + more, max) == DecodeVarint(b, max)
    decreases max
  {
    assert (b + more)[1..] == b[1..] + more;
    if b[0] >= 128 {
      VarintExtends(b[1..], max - 1, more);
    }
  }

  lemma Varint32Extends(input: Bytes, more: Bytes)
    requires TakeVarint32(input).Some?
    ensures var r := TakeVarint32(input).value; TakeVarint32(input + more) == Some((r.0, r.1 + more))
  {
    hide DecodeVarint;
    DecodedLength(input, 5);
    VarintExtends(input, 5, more);
    var n := DecodeVarint(input, 5).value.1;
    assert (input + more)[n..] == input[n..] + more;
  }

  lemma Varint64Extends(input: Bytes, more: Bytes)
    requires TakeVarint64(input).Some?
    ensures var r := TakeVarint64(input).value; TakeVarint64(input + more) == Some((r.0, r.1 + more))
  {
    hide DecodeVarint;
    DecodedLength(input, 10);
    VarintExtends(input, 10, more);
    var n := DecodeVarint(input, 10).value.1;
    assert (input + more)[n..] == input[n..] + more;
  }

  lemma StringExtends(input: Bytes, more: Bytes)
    requires TakeString(input).Some?
    ensures var r := TakeString(input).value; TakeString(input + more) == Some((r.0, r.1 + more))
  {
    hide TakeVarint32;
    Varint32Extends(input, more);
    var (n, rest) := TakeVarint32(input).value;
    assert (rest + more)[..n] == rest[..n] && (rest + more)[n..] == rest[n..] + more;
  }

  lemma {:induction false} VarintCut(v: nat, n: nat, max: nat)
    requires n < |Varint(v)|
    ensures DecodeVarint(Varint(v)[..n], max) == None
  {
    if n > 0 && max > 0 {
      assert Varint(v)[..n][1..] == Varint(v / 128)[..n - 1];
      VarintCut(v / 128, n - 1, max - 1);
    }
  }

  /** A string that is cut off anywhere is not read at all. */
  lemma CutStringNotTaken(s: Bytes, n: nat)
    requires |s| < 0x1_0000_0000 && n < |LengthPrefixed(s)|
    ensures TakeString(LengthPrefixed(s)[..n]) == None
  {
    hide Varint, DecodeVarint;
    var k := |Varint(|s|)|;
    if n < k {
      VarintCut(|s|, n, 5);
      assert LengthPrefixed(s)[..n] == Varint(|s|)[..n];
    } else {
      assert LengthPrefixed(s)[..n] == Varint(|s|) + s[..n - k];
      Varint32Taken(|s|, s[..n - k]);
    }
  }
}
