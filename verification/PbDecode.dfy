/** The decoder. */
module PbDecode {
  import opened DbFormat
  import opened Coding
  import opened PbFormat

  // ----- 32-bit varints -----

  // pb_decode_varint32: bits beyond the 32nd must be zero or repeat the sign of a negative number.
  function TakeVar32(input: Bytes): (r: Option<(Word, Bytes)>)
    ensures r.Some? ==> |r.value.1| < |input|
  {
    if input == [] then None
    else if input[0] < 128 then Some((input[0], input[1..]))
    else MoreVar32(input[1..], input[0] - 128, 7, 128)
  }

  function TwoTo(n: nat): (r: nat)
    ensures r > 0
  {
    if n == 0 then 1 else 2 * TwoTo(n - 1)
  }

  // The bit position is kept in a byte.
  function NextPosition(bitpos: nat): nat {
    (bitpos + 7) % 256
  }

  function NextWeight(bitpos: nat, weight: nat): nat {
    if bitpos + 7 < 256 then weight * 128 else TwoTo(NextPosition(bitpos))
  }

  // Bits or-ed into the result at a bit position below 32; above the bits that are there already,
  // that is a sum.
  function WithBits(result: Word, bits: nat, weight: nat): Word {
    var shifted: Word := bits * weight % 0x1_0000_0000;
    if result < weight then (result + shifted) % 0x1_0000_0000 else OrInto(result, shifted)
  }

  function OrInto(a: Word, b: Word): Word {
    ((a as bv32) | (b as bv32)) as int
  }

  // The bytes after the first; weight is two to the power of bitpos.
  function MoreVar32(input: Bytes, result: Word, bitpos: nat, weight: nat): (r: Option<(Word, Bytes)>)
    ensures r.Some? ==> |r.value.1| < |input|
  {
    if input == [] then None
    else
      var byte: nat := input[0];
      if bitpos >= 32 && byte % 128 != 0 && (result < 0x8000_0000 || byte != (if bitpos < 63 then 0xff else 1)) then None
      else
        var next := if bitpos >= 32 then result else WithBits(result, byte % 128, weight);
        if byte >= 128 then MoreVar32(input[1..], next, NextPosition(bitpos), NextWeight(bitpos, weight))
        else if bitpos == 28 && byte / 16 % 8 != 0 then None
        else Some((next, input[1..]))
  }

  lemma SevenBits(n: nat)
    ensures TwoTo(n + 7) == 128 * TwoTo(n)
  {
    assert TwoTo(n + 7) == 2 * TwoTo(n + 6) == 4 * TwoTo(n + 5) == 8 * TwoTo(n + 4);
    assert TwoTo(n + 4) == 2 * TwoTo(n + 3) == 4 * TwoTo(n + 2) == 8 * TwoTo(n + 1);
  }

  function Padding(n: nat): Bytes {
    seq(n, _ => 128)
  }

  // The bit position after n more bytes.
  function PositionAfterAll(n: nat, bitpos: nat): nat {
    if n == 0 then bitpos else PositionAfterAll(n - 1, NextPosition(bitpos))
  }

  // Continuation bytes without bits only move the bit position.
  lemma {:induction false} PaddingSkipped(n: nat, rest: Bytes, bitpos: nat)
    requires bitpos < 256
    ensures MoreVar32(Padding(n) + rest, 0, bitpos, TwoTo(bitpos)) ==
            MoreVar32(rest, 0, PositionAfterAll(n, bitpos), TwoTo(PositionAfterAll(n, bitpos)))
  {
    hide TwoTo, OrInto, MoreVar32;
    if n == 0 {
      assert Padding(0) + rest == rest;
    } else {
      OnePadding(Padding(n - 1) + rest, bitpos);
      assert Padding(n) + rest == [128] + (Padding(n - 1) + rest);
      PositionAfter(bitpos);
      hide NextPosition;
      PaddingSkipped(n - 1, rest, NextPosition(bitpos));
    }
  }

  lemma {:induction false} PositionsAdd(n: nat, bitpos: nat)
    requires bitpos < 256
    ensures PositionAfterAll(n, bitpos) == (bitpos + 7 * n) % 256
  {
    if n > 0 {
      PositionsAdd(n - 1, NextPosition(bitpos));
      Positions(bitpos, n);
    }
  }

  lemma OnePadding(rest: Bytes, bitpos: nat)
    requires bitpos < 256
    ensures MoreVar32([128] + rest, 0, bitpos, TwoTo(bitpos)) == MoreVar32(rest, 0, NextPosition(bitpos), TwoTo(NextPosition(bitpos)))
  {
    WeightAfter(bitpos);
    NoBits(TwoTo(bitpos));
    hide TwoTo, NextPosition, NextWeight, WithBits;
    assert ([128] + rest)[1..] == rest;
  }

  lemma WeightAfter(bitpos: nat)
    requires bitpos < 256
    ensures NextWeight(bitpos, TwoTo(bitpos)) == TwoTo(NextPosition(bitpos))
  {
    SevenBits(bitpos);
    hide TwoTo;
  }

  lemma PositionAfter(bitpos: nat)
    requires bitpos < 256
    ensures NextPosition(bitpos) < 256 && (NextPosition(bitpos) == 35 <==> bitpos == 28)
  {
  }

  lemma NoBits(weight: nat)
    requires weight > 0
    ensures WithBits(0, 0, weight) == 0
  {
  }

  lemma Positions(bitpos: nat, n: nat)
    requires bitpos < 256 && n > 0
    ensures (NextPosition(bitpos) + 7 * (n - 1)) % 256 == (bitpos + 7 * n) % 256
  {
    assert NextPosition(bitpos) == if bitpos + 7 < 256 then bitpos + 7 else bitpos + 7 - 256;
    hide NextPosition;
    OnceAround(bitpos + 7 * n);
  }

  lemma OnceAround(x: nat)
    ensures x >= 256 ==> (x - 256) % 256 == x % 256
  {
  }

  lemma PaddingStarts(n: nat, rest: Bytes)
    requires n > 0
    ensures TakeVar32(Padding(n) + rest) == MoreVar32(Padding(n - 1) + rest, 0, 7, TwoTo(7))
  {
    hide MoreVar32;
    assert (Padding(n) + rest)[1..] == Padding(n - 1) + rest;
    assert TwoTo(7) == 128;
  }

  lemma OneAtThree()
    ensures MoreVar32([1], 0, 3, TwoTo(3)) == Some((8, []))
  {
    assert TwoTo(3) == 8;
    hide OrInto;
  }

  /** A varint of 38 bytes wraps the bit position around: instead of an overflow the decoder
      reports 8 for a one 259 bits up. */
  lemma LongVarintWraps()
    ensures TakeVar32(Padding(37) + [1]) == Some((8, []))
  {
    hide *;
    PaddingStarts(37, [1]);
    PaddingSkipped(36, [1], 7);
    PositionsAdd(36, 7);
    OneAtThree();
  }

  // ----- varints of up to 37 bytes -----

  // All bytes but the last are marked as having a successor.
  predicate IsVarint(b: Bytes) {
    b != [] && b[|b| - 1] < 128 && forall i :: 0 <= i < |b| - 1 ==> b[i] >= 128
  }

  // The number that a varint stands for, without any bound.
  function Digits(b: Bytes): nat {
    if b == [] then 0 else b[0] % 128 + 128 * Digits(b[1..])
  }

  // Bytes from the sixth on, at index k: no bits, or the sign of a negative number.
  predicate Extends(b: Bytes, k: nat, low: Word) {
    forall i :: 0 <= i < |b| ==> b[i] % 128 == 0 || (low >= 0x8000_0000 && b[i] == if k + i < 9 then 0xff else 1)
  }

  function UpTo(n: nat, b: Bytes): (r: Bytes)
    ensures |r| == if n < |b| then n else |b|
  {
    if n < |b| then b[..n] else b
  }

  lemma {:induction false} ExtensionTaken(b: Bytes, k: nat, low: Word, weight: nat, rest: Bytes)
    requires IsVarint(b) && 5 <= k && k + |b| <= 37
    ensures MoreVar32(b + rest, low, 7 * k, weight) == if Extends(b, k, low) then Some((low, rest)) else None
    decreases |b|
  {
    hide OrInto, TwoTo, WithBits, NextWeight;
    assert (b + rest)[1..] == b[1..] + rest;
    if |b| == 1 {
      assert b[1..] + rest == rest;
    } else {
      assert NextPosition(7 * k) == 7 * (k + 1);
      ExtensionTaken(b[1..], k + 1, low, NextWeight(7 * k, weight), rest);
      assert b == [b[0]] + b[1..];
      ExtendsStep(b, k, low);
    }
  }

  lemma ExtendsStep(b: Bytes, k: nat, low: Word)
    requires b != []
    ensures Extends(b, k, low) <==>
            (b[0] % 128 == 0 || (low >= 0x8000_0000 && b[0] == if k < 9 then 0xff else 1)) && Extends(b[1..], k + 1, low)
  {
    if Extends(b[1..], k + 1, low) {
      forall i | 0 < i < |b| ensures b[i] % 128 == 0 || (low >= 0x8000_0000 && b[i] == if k + i < 9 then 0xff else 1) {
        assert b[i] == b[1..][i - 1];
      }
    }
    if Extends(b, k, low) {
      forall i | 0 <= i < |b| - 1 ensures b[1..][i] == b[i + 1] {
      }
    }
  }

  // The weight of the digit at index k, as far as digits have bits in the result.
  function FirstWeight(k: nat): nat {
    if k == 1 then 0x80 else if k == 2 then 0x4000 else if k == 3 then 0x20_0000 else 0x1000_0000
  }

  // The result of the digits of b from index k on, or None if the decoder objects.
  function Judged(b: Bytes, k: nat, result: Word, weight: nat): Option<Word>
    requires 1 <= k <= 4
  {
    var head := UpTo(5 - k, b);
    var low := (result + weight * Digits(head)) % 0x1_0000_0000;
    if (k + |b| == 5 && b[4 - k] / 16 % 8 != 0) || !Extends(b[|head|..], 5, low) then None else Some(low)
  }

  lemma {:induction false} DigitsTaken(b: Bytes, k: nat, result: Word, rest: Bytes)
    requires IsVarint(b) && 1 <= k <= 4 && k + |b| <= 37 && result < FirstWeight(k)
    ensures MoreVar32(b + rest, result, 7 * k, FirstWeight(k)) ==
            match Judged(b, k, result, FirstWeight(k)) case None => None case Some(low) => Some((low, rest))
    decreases |b|
  {
    hide OrInto, TwoTo, Extends, MoreVar32, NextWeight;
    DigitStep(b, k, result, rest);
    var w, d := FirstWeight(k), b[0] % 128;
    if |b| == 1 {
      NoExtension(b, k, result);
    } else if k == 4 {
      ExtensionTaken(b[1..], 5, (result + d * w) % 0x1_0000_0000, NextWeight(28, w), rest);
      LastDigit(b);
    } else {
      DigitsStep(b, k, result);
      hide Judged;
      assert b[1..] != [];
      DigitsTaken(b[1..], k + 1, result + d * w, rest);
    }
  }

  lemma DigitStep(b: Bytes, k: nat, result: Word, rest: Bytes)
    requires IsVarint(b) && 1 <= k <= 4 && result < FirstWeight(k)
    ensures var w := FirstWeight(k);
            var next := (result + b[0] % 128 * w) % 0x1_0000_0000;
            MoreVar32(b + rest, result, 7 * k, w) ==
            if |b| > 1 then MoreVar32(b[1..] + rest, next, 7 * (k + 1), if k < 4 then FirstWeight(k + 1) else NextWeight(28, w))
            else if k == 4 && b[0] / 16 % 8 != 0 then None
            else Some((next, rest))
    ensures |b| > 1 ==> IsVarint(b[1..])
  {
    hide OrInto, TwoTo, WithBits, NextPosition, NextWeight, MoreVar32;
    assert (b + rest)[1..] == b[1..] + rest;
    assert |b| == 1 ==> b[1..] + rest == rest;
    OneTurn(b + rest, result, 7 * k, FirstWeight(k));
    BitsAdded(result, b[0] % 128, FirstWeight(k));
    WeightsFollow(k);
  }

  lemma OneTurn(input: Bytes, result: Word, bitpos: nat, weight: nat)
    requires input != [] && bitpos < 32
    ensures var next := WithBits(result, input[0] % 128, weight);
            MoreVar32(input, result, bitpos, weight) ==
            if input[0] >= 128 then MoreVar32(input[1..], next, NextPosition(bitpos), NextWeight(bitpos, weight))
            else if bitpos == 28 && input[0] / 16 % 8 != 0 then None
            else Some((next, input[1..]))
  {
    hide WithBits, NextPosition, NextWeight;
  }

  lemma WeightsFollow(k: nat)
    requires 1 <= k <= 4
    ensures NextPosition(7 * k) == 7 * (k + 1)
    ensures NextWeight(7 * k, FirstWeight(k)) == if k < 4 then FirstWeight(k + 1) else NextWeight(28, FirstWeight(k))
  {
    hide TwoTo;
  }

  lemma BitsAdded(result: Word, bits: nat, weight: nat)
    requires result < weight
    ensures WithBits(result, bits, weight) == (result + bits * weight) % 0x1_0000_0000
  {
    hide OrInto;
    SumModulo(result, bits * weight);
  }

  lemma SumModulo(a: nat, b: nat)
    ensures (a + b % 0x1_0000_0000) % 0x1_0000_0000 == (a + b) % 0x1_0000_0000
  {
    var q := b / 0x1_0000_0000;
    assert a + b == a + b % 0x1_0000_0000 + q * 0x1_0000_0000;
  }

  lemma LastDigit(b: Bytes)
    requires |b| > 1
    ensures UpTo(1, b) == [b[0]] && Digits([b[0]]) == b[0] % 128
  {
    assert [b[0]][1..] == [];
    assert Digits([]) == 0;
  }

  lemma NoExtension(b: Bytes, k: nat, result: Word)
    requires |b| == 1 && 1 <= k <= 4
    ensures UpTo(5 - k, b) == b && Digits(b) == b[0] % 128 && b[1..] == [] && forall low :: Extends([], 5, low)
  {
    assert Digits([]) == 0;
  }

  lemma DigitsStep(b: Bytes, k: nat, result: Word)
    requires |b| > 1 && 1 <= k < 4 && result < FirstWeight(k)
    ensures var next := result + b[0] % 128 * FirstWeight(k);
            next < FirstWeight(k + 1) && Judged(b, k, result, FirstWeight(k)) == Judged(b[1..], k + 1, next, FirstWeight(k + 1))
  {
    hide Extends;
    var head, rest := UpTo(5 - k, b), UpTo(4 - k, b[1..]);
    assert head[1..] == rest && head[0] == b[0];
    assert b[1..][|rest|..] == b[|head|..];
    assert Digits(head) == b[0] % 128 + 128 * Digits(rest);
    var w := FirstWeight(k);
    assert w * Digits(head) == b[0] % 128 * w + FirstWeight(k + 1) * Digits(rest);
  }

  /** What the decoder makes of any varint of up to 37 bytes: the low 32 bits of its first five
      digits, unless a fifth digit that is the last has more than four bits or a later byte is
      neither empty nor part of a sign. */
  lemma ShortVarint(b: Bytes, rest: Bytes)
    requires IsVarint(b) && |b| <= 37
    ensures var head := UpTo(5, b);
            var low := Digits(head) % 0x1_0000_0000;
            TakeVar32(b + rest) == if (|b| == 5 && b[4] >= 16) || !Extends(b[|head|..], 5, low) then None else Some((low, rest))
  {
    assert (b + rest)[1..] == b[1..] + rest;
    if |b| == 1 {
      hide MoreVar32, Extends;
      NoExtension(b, 4, 0);
      assert UpTo(5, b) == b;
    } else {
      hide MoreVar32, Extends, Digits, UpTo, Judged;
      DigitsTaken(b[1..], 1, b[0] - 128, rest);
      JudgedFromFirst(b);
    }
  }

  lemma JudgedFromFirst(b: Bytes)
    requires IsVarint(b) && |b| > 1
    ensures var head := UpTo(5, b);
            var low := Digits(head) % 0x1_0000_0000;
            Judged(b[1..], 1, b[0] - 128, 128) == if (|b| == 5 && b[4] >= 16) || !Extends(b[|head|..], 5, low) then None else Some(low)
  {
    hide Extends;
    var head, tail := UpTo(5, b), UpTo(4, b[1..]);
    assert head[1..] == tail && b[1..][|tail|..] == b[|head|..];
    assert Digits(head) == b[0] - 128 + 128 * Digits(tail);
    hide Digits;
    assert |b| == 5 ==> b[1..][3] == b[4] < 128;
  }

  lemma {:induction false} DigitsSplit(b: Bytes, n: nat)
    requires n <= |b| && n <= 5
    ensures Digits(b) == Digits(b[..n]) + Weight(n) * Digits(b[n..])
  {
    if n == 0 {
      assert b[0..] == b && b[..0] == [];
    } else {
      DigitsSplit(b[1..], n - 1);
      assert b[..n][1..] == b[1..][..n - 1] && b[1..][n - 1..] == b[n..];
      hide Weight;
      WeightStep(n, Digits(b[n..]));
    }
  }

  // The weight of the digit at index n.
  function Weight(n: nat): nat {
    if n == 0 then 1 else if n < 5 then FirstWeight(n) else 0x8_0000_0000
  }

  lemma WeightStep(n: nat, digits: nat)
    requires 0 < n <= 5
    ensures Weight(n) * digits == 128 * (Weight(n - 1) * digits)
  {
    assert Weight(n) == 128 * Weight(n - 1);
  }

  lemma {:induction false} NoDigits(b: Bytes, low: Word, k: nat)
    requires Digits(b) == 0
    ensures Extends(b, k, low)
  {
    if b != [] {
      NoDigits(b[1..], low, k + 1);
      ExtendsStep(b, k, low);
    }
  }

  /** No varint of up to 37 bytes whose number fits 32 bits is refused or read as another number. */
  lemma FittingVarint(b: Bytes, rest: Bytes)
    requires IsVarint(b) && |b| <= 37 && Digits(b) < 0x1_0000_0000
    ensures TakeVar32(b + rest) == Some((Digits(b), rest))
  {
    hide TakeVar32, Extends, Digits;
    ShortVarint(b, rest);
    if |b| >= 5 {
      FittingParts(b);
    } else {
      assert UpTo(5, b) == b && b[|b|..] == [];
      NoExtensionAt(Digits(b));
    }
  }

  lemma NoExtensionAt(low: Word)
    ensures Extends([], 5, low)
  {
  }

  lemma FittingParts(b: Bytes)
    requires |b| >= 5 && Digits(b) < 0x1_0000_0000
    ensures UpTo(5, b) == b[..5] && Digits(b[..5]) == Digits(b) && b[4] % 128 < 16
    ensures Extends(b[5..], 5, Digits(b))
  {
    hide Digits, Extends;
    DigitsSplit(b, 5);
    assert Digits(b[5..]) == 0;
    hide Weight;
    FifthDigit(b);
    NoDigits(b[5..], Digits(b), 5);
  }

  lemma FifthDigit(b: Bytes)
    requires |b| >= 5 && Digits(b) < 0x1_0000_0000
    ensures b[4] % 128 < 16
  {
    var tail := b[4..];
    assert tail[0] == b[4];
    assert Digits(tail) >= b[4] % 128;
    hide Digits;
    DigitsSplit(b, 4);
    assert Weight(4) == 0x1000_0000;
  }

  /** Numbers of up to 35 bits are read modulo 2^32 when a sixth byte follows their five digits:
      the decoder notices an overflow in the fifth digit only if that is the last. */
  lemma PaddedVarint(b: Bytes, rest: Bytes)
    requires IsVarint(b) && 5 < |b| <= 37 && Digits(b) < 0x8_0000_0000
    ensures TakeVar32(b + rest) == Some((Digits(b) % 0x1_0000_0000, rest))
  {
    hide TakeVar32, Extends, Digits, IsVarint;
    DigitsSplit(b, 5);
    assert Digits(b[5..]) == 0 && Digits(b) == Digits(b[..5]);
    hide Weight;
    ShortVarint(b, rest);
    assert UpTo(5, b) == b[..5];
    NoDigits(b[5..], Digits(b) % 0x1_0000_0000, 5);
  }

  /** So seven times 2^32 with a zero byte behind its digits is read as 0. */
  lemma OverflowMissed()
    ensures var b: Bytes := [128, 128, 128, 128, 240, 0];
            IsVarint(b) && Digits(b) == 7 * 0x1_0000_0000 && TakeVar32(b) == Some((0, []))
  {
    var b: Bytes := [128, 128, 128, 128, 240, 0];
    OverflowDigits();
    assert IsVarint(b) && b + [] == b;
    hide *;
    PaddedVarint(b, []);
  }

  lemma OverflowDigits()
    ensures Digits([128, 128, 128, 128, 240, 0]) == 7 * 0x1_0000_0000
  {
    FirstDigit(0, []);
    FirstDigit(240, [0]);
    Digits4([240, 0]);
    hide Digits;
    assert [0] == [0] + [] && [240, 0] == [240] + [0];
    assert [128, 128, 128, 128, 240, 0] == [128] + ([128] + ([128] + ([128] + [240, 0])));
  }

  lemma Digits4(last: Bytes)
    ensures Digits([128] + ([128] + ([128] + ([128] + last)))) == 0x1000_0000 * Digits(last)
  {
    hide Digits;
    FirstDigit(128, last);
    FirstDigit(128, [128] + last);
    FirstDigit(128, [128] + ([128] + last));
    FirstDigit(128, [128] + ([128] + ([128] + last)));
  }

  lemma FirstDigit(byte: Byte, rest: Bytes)
    ensures Digits([byte] + rest) == byte % 128 + 128 * Digits(rest)
  {
    assert ([byte] + rest)[1..] == rest;
  }

  lemma {:induction false} VarintDigits(v: nat)
    ensures IsVarint(Varint(v)) && Digits(Varint(v)) == v
  {
    VarintStep(v);
    hide Varint;
    if v >= 128 {
      VarintDigits(v / 128);
      assert Varint(v)[1..] == Varint(v / 128);
    }
  }

  lemma Var32Taken(v: Word, rest: Bytes)
    ensures TakeVar32(Varint(v) + rest) == Some((v, rest))
  {
    VarintLength32(v);
    VarintDigits(v);
    hide *;
    FittingVarint(Varint(v), rest);
  }

  // ----- skipping -----

  function SkipVarint(input: Bytes): (r: Option<Bytes>)
    ensures r.Some? ==> |r.value| < |input|
  {
    if input == [] then None
    else if input[0] >= 128 then SkipVarint(input[1..])
    else Some(input[1..])
  }

  function SkipBytes(input: Bytes, n: nat): (r: Option<Bytes>)
    ensures r.Some? ==> |r.value| <= |input|
  {
    if |input| < n then None else Some(input[n..])
  }

  function SkipField(wire: nat, input: Bytes): (r: Option<Bytes>)
    ensures r.Some? ==> |r.value| <= |input|
  {
    if wire == VARINT then SkipVarint(input)
    else if wire == FIXED64 then SkipBytes(input, 8)
    else if wire == FIXED32 then SkipBytes(input, 4)
    else if wire == STRING then
      match TakeVar32(input)
      case None => None
      case Some((n, rest)) => SkipBytes(rest, n)
    else None
  }

  // A length, the bytes it covers, and what follows them.
  function TakeSub(input: Bytes): (r: Option<(Bytes, Bytes)>)
    ensures r.Some? ==> |r.value.0| < |input| && |r.value.1| < |input|
  {
    match TakeVar32(input)
    case None => None
    case Some((n, rest)) => if |rest| < n then None else Some((rest[..n], rest[n..]))
  }

  // ----- values -----

  function Signed(value: nat, modulus: int): int {
    if 2 * value >= modulus then value - modulus else value
  }

  function Fitting(i: int, w: Width): Option<Value> {
    if -Modulus(w) <= 2 * i < Modulus(w) then Some(Int(i)) else None
  }

  // Fields of up to 32 bits take the low 32 bits of a signed value.
  function DecodeSigned(value: Word64, w: Width): Option<Value> {
    if w.W64? then Some(Int(Signed(value, 0x1_0000_0000_0000_0000)))
    else Fitting(Signed(value % 0x1_0000_0000, 0x1_0000_0000), w)
  }

  function UnZigZag(value: nat): int {
    if value % 2 == 1 then -(value / 2) - 1 else value / 2
  }

  function DecodeScalar(lt: LType, input: Bytes): (r: Option<(Value, Bytes)>)
    requires lt.Packable()
    ensures r.Some? ==> |r.value.1| < |input|
  {
    if lt.LBool? then
      match TakeVar32(input)
      case None => None
      case Some((n, rest)) => Some((Int(if n != 0 then 1 else 0), rest))
    else if lt.LFixed32? then
      if |input| < 4 then None else Some((Int(DecodeFixed32(input[..4])), input[4..]))
    else if lt.LFixed64? then
      if |input| < 8 then None else Some((Int(DecodeFixed64(input[..8])), input[8..]))
    else
      match TakeVarint64(input)
      case None => None
      case Some((n, rest)) =>
        var v := if lt.LVarint? then DecodeSigned(n, lt.width)
                 else if lt.LSVarint? then Fitting(UnZigZag(n), lt.width)
                 else if n < Modulus(lt.width) then Some(Int(n)) else None;
        if v.None? then None else Some((v.value, rest))
  }

  function DecodeBlob(room: int, input: Bytes): (r: Option<(Value, Bytes)>)
    ensures r.Some? ==> |r.value.1| < |input|
  {
    match TakeVar32(input)
    case None => None
    case Some((n, rest)) =>
      if n > room || |rest| < n then None else Some((Blob(rest[..n]), rest[n..]))
  }

  // current is what the destination holds; only a message is decoded into it.
  function DecodeValue(lt: LType, input: Bytes, current: Value): (r: Option<(Value, Bytes)>)
    ensures r.Some? ==> |r.value.1| < |input|
    decreases lt, 1
  {
    if lt.Packable() then DecodeScalar(lt, input)
    else if lt.LBytes? then DecodeBlob(lt.max, input)
    else if lt.LString? then DecodeBlob(lt.max - 1, input)
    else
      match TakeSub(input)
      case None => None
      case Some((sub, rest)) =>
        if !current.Message? || |current.slots| != |lt.fields| then None
        else
          var slots := DecodeLoop(lt.fields, sub, current.slots, {});
          if slots.None? then None else Some((Message(slots.value), rest))
  }

  // A packed array: elements until the substream or the room ends.
  function DecodePacked(lt: LType, input: Bytes, items: seq<Value>, max: nat): Option<seq<Value>>
    requires lt.Packable()
    decreases |input|
  {
    if input == [] then Some(items)
    else if |items| >= max then None
    else
      match DecodeScalar(lt, input)
      case None => None
      case Some((v, rest)) => DecodePacked(lt, rest, items + [v], max)
  }

  function DecodeField(f: Field, wire: nat, input: Bytes, s: Slot): (r: Option<(Slot, Bytes)>)
    ensures r.Some? ==> |r.value.1| < |input|
    decreases f, 3
  {
    if f.htype.Repeated? then
      var max := f.htype.max;
      if !s.Many? then None
      else if wire == STRING && f.ltype.Packable() then
        match TakeSub(input)
        case None => None
        case Some((sub, rest)) =>
          var items := DecodePacked(f.ltype, sub, s.items, max);
          if items.None? then None else Some((Many(items.value), rest))
      else if |s.items| >= max then None
      else
        match DecodeValue(f.ltype, input, Default(f.ltype))
        case None => None
        case Some((v, rest)) => Some((Many(s.items + [v]), rest))
    else if !s.One? then None
    else
      match DecodeValue(f.ltype, input, s.v)
      case None => None
      case Some((v, rest)) => Some((One(true, v), rest))
  }

  // ----- messages -----

  function FindField(fields: seq<Field>, tag: nat): (r: Option<nat>)
    ensures r.Some? ==> r.value < |fields| && fields[r.value].tag == tag
    ensures r.None? ==> forall i :: 0 <= i < |fields| ==> fields[i].tag != tag
  {
    if fields == [] then None
    else if fields[|fields| - 1].tag == tag then Some(|fields| - 1)
    else FindField(fields[..|fields| - 1], tag)
  }

  predicate FindsTerminator(fields: seq<Field>, tag: nat) {
    fields == [] && tag == 0
  }

  const MAX_REQUIRED_FIELDS: nat := 64

  // The number of required fields among the first n.
  function RequiredBefore(fields: seq<Field>, n: nat): nat
    requires n <= |fields|
  {
    if n == 0 then 0 else RequiredBefore(fields, n - 1) + if fields[n - 1].htype.Required? then 1 else 0
  }

  // Every required field has been seen, as far as there are bits to keep track of them.
  function Finish(fields: seq<Field>, slots: seq<Slot>, seen: set<nat>): Option<seq<Slot>> {
    if forall i :: 0 <= i < |fields| && fields[i].htype.Required? && RequiredBefore(fields, i) < MAX_REQUIRED_FIELDS ==> i in seen
    then Some(slots) else None
  }

  /** pb_decode_noinit: fields in any order until the input ends or a zero key; unknown fields
      are skipped.  In an empty descriptor, tag 0 finds the terminator, which counts as a bool. */
  function DecodeLoop(fields: seq<Field>, input: Bytes, slots: seq<Slot>, seen: set<nat>): Option<seq<Slot>>
    requires |slots| == |fields|
    decreases fields, 0, |input|
  {
    if input == [] then Finish(fields, slots, seen)
    else
      match TakeVar32(input)
      case None => None
      case Some((key, body)) =>
        if key == 0 then Finish(fields, slots, seen)
        else if FindsTerminator(fields, key / 8) then
          var stray := TakeVar32(body);
          if stray.None? then None else DecodeLoop(fields, stray.value.1, slots, seen)
        else
          match FindField(fields, key / 8)
          case None =>
            var rest := SkipField(key % 8, body);
            if rest.None? then None else DecodeLoop(fields, rest.value, slots, seen)
          case Some(i) =>
            var d := DecodeField(fields[i], key % 8, body, slots[i]);
            if d.None? then None
            else DecodeLoop(fields, d.value.1, slots[i := d.value.0], seen + {i})
  }

  /** With an empty descriptor the decoder accepts a key of tag 0 with any value behind it and
      stores a bool that the message has no room for. */
  lemma TagZeroOfEmptyMessage()
    ensures Decode([], [1, 5]) == Some([])
  {
    assert TakeVar32([1, 5]) == Some((1, [5])) && TakeVar32([5]) == Some((5, []));
    assert Defaults([]) == [];
    assert DecodeLoop([], [], [], {}) == Some([]);
  }

  /** With any other descriptor whose tags are positive, a key of tag 0 is that of an unknown field:
      what stands behind it is skipped by its wire type, and no field changes. */
  lemma TagZeroUnknown(fields: seq<Field>, wire: Byte, body: Bytes, slots: seq<Slot>, seen: set<nat>)
    requires fields != [] && |slots| == |fields| && 0 < wire < 8 && forall i :: 0 <= i < |fields| ==> fields[i].tag > 0
    ensures DecodeLoop(fields, [wire] + body, slots, seen) ==
            match SkipField(wire, body) case None => None case Some(rest) => DecodeLoop(fields, rest, slots, seen)
  {
    var input := [wire] + body;
    assert input[1..] == body && TakeVar32(input) == Some((wire, body));
    assert FindField(fields, 0) == None;
    hide TakeVar32, FindField, SkipField, DecodeField, Finish;
  }

  /** pb_decode: into a message set to its defaults. */
  function Decode(fields: seq<Field>, input: Bytes): Option<seq<Slot>> {
    DecodeLoop(fields, input, Defaults(fields), {})
  }
}
