/** The decoder over streams: substreams share the position of the stream they are cut from. */
module PbDecoder {
  import opened DbFormat
  import opened Coding
  import opened PbFormat
  import opened PbDecode
  import opened PbRoundTrip
  import opened PbEncode

  class IStream {
    const data: Bytes
    var pos: nat
    var bytesLeft: nat

    ghost predicate Valid()
      reads this
    {
      pos + bytesLeft <= |data|
    }

    // What the stream still has to give.
    ghost function Rest(): Bytes
      reads this
      requires Valid()
    {
      data[pos..pos + bytesLeft]
    }

    constructor (data: Bytes, pos: nat, bytesLeft: nat)
      requires pos + bytesLeft <= |data|
      ensures Valid() && this.data == data && this.pos == pos && this.bytesLeft == bytesLeft
    {
      this.data, this.pos, this.bytesLeft := data, pos, bytesLeft;
    }

    method ReadByte() returns (r: Option<Byte>)
      requires Valid()
      modifies this
      ensures Valid() && pos + bytesLeft == old(pos + bytesLeft)
      ensures old(Rest()) == [] ==> r.None? && Rest() == []
      ensures old(Rest()) != [] ==> r == Some(old(Rest())[0]) && Rest() == old(Rest())[1..]
    {
      if bytesLeft == 0 {
        return None;
      }
      r := Some(data[pos]);
      pos, bytesLeft := pos + 1, bytesLeft - 1;
    }

    method Read(count: nat) returns (r: Option<Bytes>)
      requires Valid()
      modifies this
      ensures Valid() && pos + bytesLeft == old(pos + bytesLeft)
      ensures if |old(Rest())| < count then r.None? else r == Some(old(Rest())[..count]) && Rest() == old(Rest())[count..]
    {
      if bytesLeft < count {
        return None;
      }
      r := Some(data[pos..pos + count]);
      assert r.value == Rest()[..count] && data[pos + count..pos + bytesLeft] == Rest()[count..];
      pos, bytesLeft := pos + count, bytesLeft - count;
    }

    method DecodeVarint32() returns (r: Option<Word>)
      requires Valid()
      modifies this
      ensures Valid() && pos + bytesLeft == old(pos + bytesLeft)
      ensures match TakeVar32(old(Rest()))
              case None => r.None?
              case Some((v, rest)) => r == Some(v) && Rest() == rest
    {
      hide WithBits, NextWeight, NextPosition;
      ghost var input := Rest();
      var first := ReadByte();
      if first.None? {
        return None;
      }
      if first.value < 128 {
        return first;
      }
      var result: Word, bitpos: nat, weight: nat := first.value - 128, 7, 128;
      while true
        invariant Valid() && pos + bytesLeft == old(pos + bytesLeft) && bitpos < 256
        invariant TakeVar32(input) == MoreVar32(Rest(), result, bitpos, weight)
        decreases |Rest()|
      {
        var b := ReadByte();
        if b.None? {
          return None;
        }
        var byte: nat := b.value;
        if bitpos >= 32 {
          var signExtension := if bitpos < 63 then 0xff else 1;
          if byte % 128 != 0 && (result < 0x8000_0000 || byte != signExtension) {
            return None;
          }
        } else {
          result := WithBits(result, byte % 128, weight);
        }
        PositionAfter(bitpos);
        bitpos, weight := NextPosition(bitpos), NextWeight(bitpos, weight);
        if byte < 128 {
          if bitpos == 35 && byte / 16 % 8 != 0 {
            return None;
          }
          return Some(result);
        }
      }
    }

    method DecodeVarint() returns (r: Option<Word64>)
      requires Valid()
      modifies this
      ensures Valid() && pos + bytesLeft == old(pos + bytesLeft)
      ensures match TakeVarint64(old(Rest()))
              case None => r.None?
              case Some((v, rest)) => r == Some(v) && Rest() == rest
    {
      hide Coding.DecodeVarint, TakeVarint64, VarintFrom, Accumulated;
      ghost var input := Rest();
      ghost var i: nat := 0;
      var bitpos: nat, result: nat, weight: nat := 0, 0, 1;
      NoVarintBytes(input);
      while true
        invariant Valid() && pos + bytesLeft == old(pos + bytesLeft) && bitpos == 7 * i && i <= 10 && i <= |input| && Rest() == input[i..]
        invariant VarintFrom(input, i, result, weight)
        decreases 10 - i
      {
        OneVarintByte(input, i, result, weight);
        if bitpos >= 64 {
          return None;
        }
        var b := ReadByte();
        if b.None? {
          return None;
        }
        var byte: nat := b.value;
        if byte < 128 {
          return Some(Accumulated(result, byte, weight) % 0x1_0000_0000_0000_0000);
        }
        result := Accumulated(result, byte - 128, weight);
        weight := weight * 128;
        bitpos := bitpos + 7;
        i := i + 1;
      }
    }
  }

  function Accumulated(result: nat, digit: nat, weight: nat): nat {
    result + digit * weight
  }

  // i bytes have been read, with their sum and the weight of the next.
  ghost predicate VarintFrom(input: Bytes, i: nat, result: nat, weight: nat)
    requires i <= |input| && i <= 10
  {
    match Coding.DecodeVarint(input[i..], 10 - i)
    case None => Coding.DecodeVarint(input, 10) == None
    case Some((v, n)) => Coding.DecodeVarint(input, 10) == Some((result + weight * v, i + n))
  }

  lemma NoVarintBytes(input: Bytes)
    ensures VarintFrom(input, 0, 0, 1)
  {
    hide Coding.DecodeVarint;
    assert input[0..] == input;
  }

  lemma OneVarintByte(input: Bytes, i: nat, result: nat, weight: nat)
    requires i <= |input| && i <= 10 && VarintFrom(input, i, result, weight)
    ensures i == 10 || i == |input| ==> TakeVarint64(input) == None
    ensures i < 10 && i < |input| && input[i] < 128 ==>
              TakeVarint64(input) == Some((Accumulated(result, input[i], weight) % 0x1_0000_0000_0000_0000, input[i + 1..]))
    ensures i < 10 && i < |input| && input[i] >= 128 ==> VarintFrom(input, i + 1, Accumulated(result, input[i] - 128, weight), weight * 128)
  {
    hide Coding.DecodeVarint;
    VarintUnfolds(input[i..], 10 - i);
    if i < 10 && i < |input| {
      assert input[i..][1..] == input[i + 1..];
      if input[i] >= 128 {
        Carry(result, weight, input[i], input[i + 1..], 9 - i);
      }
    }
  }

  lemma VarintUnfolds(b: Bytes, max: nat)
    ensures Coding.DecodeVarint(b, max) ==
            if max == 0 || b == [] then None
            else if b[0] < 128 then Some((b[0], 1))
            else match Coding.DecodeVarint(b[1..], max - 1)
                 case None => None
                 case Some((v, n)) => Some((b[0] - 128 + 128 * v, n + 1))
  {
  }

  // ----- skipping -----

  method SkipVarintField(s: IStream) returns (ok: bool)
    requires s.Valid()
    modifies s
    ensures s.Valid() && s.pos + s.bytesLeft == old(s.pos + s.bytesLeft)
    ensures match SkipVarint(old(s.Rest()))
            case None => !ok
            case Some(rest) => ok && s.Rest() == rest
  {
    ghost var input := s.Rest();
    while true
      invariant s.Valid() && s.pos + s.bytesLeft == old(s.pos + s.bytesLeft) && SkipVarint(s.Rest()) == SkipVarint(input)
      decreases |s.Rest()|
    {
      var b := s.ReadByte();
      if b.None? {
        return false;
      }
      if b.value < 128 {
        return true;
      }
    }
  }

  method SkipUnknown(s: IStream, wire: nat) returns (ok: bool)
    requires s.Valid()
    modifies s
    ensures s.Valid() && s.pos + s.bytesLeft == old(s.pos + s.bytesLeft)
    ensures match SkipField(wire, old(s.Rest()))
            case None => !ok
            case Some(rest) => ok && s.Rest() == rest
  {
    hide SkipVarint, TakeVar32;
    var skipped: Option<Bytes> := None;
    if wire == VARINT {
      ok := SkipVarintField(s);
      return;
    } else if wire == FIXED64 {
      skipped := s.Read(8);
    } else if wire == STRING {
      var length := s.DecodeVarint32();
      if length.Some? {
        skipped := s.Read(length.value);
      }
    } else if wire == FIXED32 {
      skipped := s.Read(4);
    }
    ok := skipped.Some?;
  }

  // ----- substreams -----

  // After the substream comes the rest of the stream it was cut from.
  ghost predicate CutFrom(s: IStream, sub: IStream, rest: Bytes)
    reads s, sub
  {
    && sub != s && sub.data == s.data && sub.Valid()
    && sub.pos + sub.bytesLeft + s.bytesLeft <= |s.data|
    && rest == s.data[sub.pos + sub.bytesLeft..sub.pos + sub.bytesLeft + s.bytesLeft]
  }

  method MakeSubstream(s: IStream) returns (sub: IStream?)
    requires s.Valid()
    modifies s
    ensures sub == null || fresh(sub)
    ensures match TakeSub(old(s.Rest()))
            case None => sub == null
            case Some((bytes, rest)) =>
              && sub != null && CutFrom(s, sub, rest) && sub.Rest() == bytes
              && sub.pos + sub.bytesLeft + s.bytesLeft == old(s.pos + s.bytesLeft)
  {
    hide TakeVar32;
    var size := s.DecodeVarint32();
    if size.None? || s.bytesLeft < size.value {
      return null;
    }
    sub := new IStream(s.data, s.pos, size.value);
    assert s.Rest()[..size.value] == sub.Rest();
    assert s.Rest()[size.value..] == s.data[s.pos + size.value..s.pos + s.bytesLeft];
    s.bytesLeft := s.bytesLeft - size.value;
  }

  // What is left of the substream is passed over.
  method CloseSubstream(s: IStream, sub: IStream, ghost rest: Bytes)
    requires CutFrom(s, sub, rest)
    modifies s, sub
    ensures s.Valid() && s.Rest() == rest && s.pos + s.bytesLeft == old(sub.pos + sub.bytesLeft + s.bytesLeft)
  {
    if sub.bytesLeft > 0 {
      var skipped := sub.Read(sub.bytesLeft);
    }
    s.pos := sub.pos;
  }

  // ----- values -----

  method DecodeScalarFrom(s: IStream, lt: LType) returns (r: Option<Value>)
    requires s.Valid() && lt.Packable()
    modifies s
    ensures s.Valid()
    ensures match DecodeScalar(lt, old(s.Rest()))
            case None => r.None?
            case Some((v, rest)) => r == Some(v) && s.Rest() == rest
    ensures s.pos + s.bytesLeft == old(s.pos + s.bytesLeft)
  {
    hide TakeVar32, TakeVarint64, DecodeFixed32, DecodeFixed64;
    r := None;
    match lt {
      case LBool =>
        var n := s.DecodeVarint32();
        if n.Some? {
          r := Some(Int(if n.value != 0 then 1 else 0));
        }
      case LFixed32 =>
        var b := s.Read(4);
        if b.Some? {
          r := Some(Int(DecodeFixed32(b.value)));
        }
      case LFixed64 =>
        var b := s.Read(8);
        if b.Some? {
          r := Some(Int(DecodeFixed64(b.value)));
        }
      case LVarint(w) =>
        var n := s.DecodeVarint();
        if n.Some? {
          r := DecodeSigned(n.value, w);
        }
      case LSVarint(w) =>
        var n := s.DecodeVarint();
        if n.Some? {
          r := Fitting(UnZigZag(n.value), w);
        }
      case LUVarint(w) =>
        var n := s.DecodeVarint();
        if n.Some? && n.value < Modulus(w) {
          r := Some(Int(n.value));
        }
    }
  }

  method DecodeBlobFrom(s: IStream, room: int) returns (r: Option<Value>)
    requires s.Valid()
    modifies s
    ensures s.Valid()
    ensures match DecodeBlob(room, old(s.Rest()))
            case None => r.None?
            case Some((v, rest)) => r == Some(v) && s.Rest() == rest
    ensures s.pos + s.bytesLeft == old(s.pos + s.bytesLeft)
  {
    hide TakeVar32;
    var size := s.DecodeVarint32();
    if size.None? || size.value > room {
      return None;
    }
    var b := s.Read(size.value);
    r := if b.Some? then Some(Blob(b.value)) else None;
  }

  /** A value; a message is decoded from its substream into what the destination holds. */
  method DecodeValueFrom(s: IStream, lt: LType, current: Value) returns (r: Option<Value>)
    requires s.Valid() && GoodType(lt)
    modifies s
    ensures r.Some? ==> s.Valid() && s.pos + s.bytesLeft == old(s.pos + s.bytesLeft)
    ensures match DecodeValue(lt, old(s.Rest()), current)
            case None => r.None?
            case Some((v, rest)) => r == Some(v) && s.Rest() == rest
    decreases lt, 1
  {
    hide DecodeScalar, DecodeBlob, TakeSub, DecodeLoop, GoodFields;
    if lt.Packable() {
      r := DecodeScalarFrom(s, lt);
    } else if lt.LBytes? {
      r := DecodeBlobFrom(s, lt.max);
    } else if lt.LString? {
      r := DecodeBlobFrom(s, lt.max - 1);
    } else {
      ghost var input := s.Rest();
      var sub := MakeSubstream(s);
      if sub == null || !current.Message? || |current.slots| != |lt.fields| {
        return None;
      }
      ghost var rest := TakeSub(input).value.1;
      var slots := DecodeNoInit(sub, lt.fields, current.slots);
      if slots.None? {
        return None;
      }
      CloseSubstream(s, sub, rest);
      r := Some(Message(slots.value));
    }
  }

  method DecodePackedFrom(s: IStream, lt: LType, before: seq<Value>, max: nat) returns (r: Option<seq<Value>>)
    requires s.Valid() && lt.Packable()
    modifies s
    ensures s.Valid() && s.pos + s.bytesLeft == old(s.pos + s.bytesLeft)
    ensures r == DecodePacked(lt, old(s.Rest()), before, max)
    ensures r.Some? ==> s.bytesLeft == 0
  {
    hide DecodeScalar;
    ghost var input := s.Rest();
    var items := before;
    while s.bytesLeft > 0 && |items| < max
      invariant s.Valid() && s.pos + s.bytesLeft == old(s.pos + s.bytesLeft)
      invariant DecodePacked(lt, s.Rest(), items, max) == DecodePacked(lt, input, before, max)
      decreases |s.Rest()|
    {
      var v := DecodeScalarFrom(s, lt);
      if v.None? {
        return None;
      }
      items := items + [v.value];
    }
    if s.bytesLeft != 0 {
      return None;
    }
    r := Some(items);
  }

  /** decode_static_field: the flag is set, the array grows, or the field is replaced. */
  method DecodeFieldFrom(s: IStream, f: Field, wire: nat, slot: Slot) returns (r: Option<Slot>)
    requires s.Valid() && GoodField(f)
    modifies s
    ensures r.Some? ==> s.Valid() && s.pos + s.bytesLeft == old(s.pos + s.bytesLeft)
    ensures match DecodeField(f, wire, old(s.Rest()), slot)
            case None => r.None?
            case Some((t, rest)) => r == Some(t) && s.Rest() == rest
    decreases f, 3
  {
    hide DecodeValue, DecodePacked, TakeSub, GoodType, Default;
    r := None;
    if f.htype.Repeated? {
      if !slot.Many? {
        return;
      }
      if wire == STRING && f.ltype.Packable() {
        ghost var input := s.Rest();
        var sub := MakeSubstream(s);
        if sub == null {
          return;
        }
        ghost var rest := TakeSub(input).value.1;
        var items := DecodePackedFrom(sub, f.ltype, slot.items, f.htype.max);
        if items.None? {
          return;
        }
        CloseSubstream(s, sub, rest);
        r := Some(Many(items.value));
      } else if |slot.items| < f.htype.max {
        var v := DecodeValueFrom(s, f.ltype, Default(f.ltype));
        if v.Some? {
          r := Some(Many(slot.items + [v.value]));
        }
      }
    } else if slot.One? {
      var v := DecodeValueFrom(s, f.ltype, slot.v);
      if v.Some? {
        r := Some(One(true, v.value));
      }
    }
  }

  /** pb_field_iter_find: once round the descriptor from wherever the iterator stands. */
  method FieldIterFind(fields: seq<Field>, start: nat, tag: nat) returns (found: bool, pos: nat)
    requires GoodFields(fields) && (start < |fields| || start == 0 == |fields|)
    ensures pos < |fields| || pos == start
    ensures match FindField(fields, tag)
            case None => found == FindsTerminator(fields, tag)
            case Some(i) => found && pos == i
    ensures found <==> (exists i :: 0 <= i < |fields| && fields[i].tag == tag) || (fields == [] && tag == 0)
    ensures tag == 0 ==> (found <==> fields == [])
  {
    assert forall k :: 0 <= k < |fields| ==> GoodField(fields[k]) && fields[k].tag > 0;
    hide GoodField;
    pos := start;
    if |fields| == 0 {
      found := tag == 0;
      return;
    }
    ghost var steps := 0;
    while true
      invariant pos < |fields| && steps < |fields| && pos == (if start + steps < |fields| then start + steps else start + steps - |fields|)
      invariant forall k :: 0 <= k < |fields| && Passed(start, steps, |fields|, k) ==> fields[k].tag != tag
      decreases |fields| - steps
    {
      if fields[pos].tag == tag {
        FindsField(fields, pos);
        return true, pos;
      }
      pos := if pos + 1 == |fields| then 0 else pos + 1;
      steps := steps + 1;
      if pos == start {
        break;
      }
    }
    found := false;
    assert forall k :: 0 <= k < |fields| ==> Passed(start, |fields|, |fields|, k);
  }

  // Entry k is among the first steps entries from start on, going round.
  predicate Passed(start: nat, steps: nat, length: nat, k: nat) {
    start <= k < start + steps || k + length < start + steps
  }

  /** pb_decode_noinit over a stream is the decoding of its bytes. */
  method DecodeNoInit(s: IStream, fields: seq<Field>, slots: seq<Slot>) returns (r: Option<seq<Slot>>)
    requires s.Valid() && GoodFields(fields) && |slots| == |fields|
    modifies s
    ensures r == DecodeLoop(fields, old(s.Rest()), slots, {})
    ensures r.Some? ==> s.Valid() && s.pos + s.bytesLeft == old(s.pos + s.bytesLeft)
    decreases fields, 0
  {
    hide TakeVar32, FindField, SkipField, DecodeField, Finish;
    ghost var input := s.Rest();
    var current, iter: nat := slots, 0;
    var seen: set<nat> := {};
    while s.bytesLeft > 0
      invariant s.Valid() && |current| == |fields| && (iter < |fields| || iter == 0 == |fields|)
      invariant DecodeLoop(fields, s.Rest(), current, seen) == DecodeLoop(fields, input, slots, {})
      invariant s.pos + s.bytesLeft == old(s.pos + s.bytesLeft)
      decreases |s.Rest()|
    {
      var key := s.DecodeVarint32();
      if key.None? {
        return None;
      }
      if key.value == 0 {
        r := Finish(fields, current, seen);
        return;
      }
      var found;
      found, iter := FieldIterFind(fields, iter, key.value / 8);
      if found && fields == [] {
        var stray := s.DecodeVarint32();
        if stray.None? {
          return None;
        }
      } else if !found {
        var ok := SkipUnknown(s, key.value % 8);
        if !ok {
          return None;
        }
      } else {
        var slot := DecodeFieldFrom(s, fields[iter], key.value % 8, current[iter]);
        if slot.None? {
          return None;
        }
        current := current[iter := slot.value];
        seen := seen + {iter};
      }
    }
    r := Finish(fields, current, seen);
  }

  /** Through a writing stream and a reading stream: a message that fits comes back. */
  method WriteAndRead(fields: seq<Field>, slots: seq<Slot>, room: nat) returns (r: Option<seq<Slot>>)
    requires GoodFields(fields) && WellFormed(fields, slots) && room < 0x1_0000_0000
    ensures r == if |EncodeMessage(fields, slots, |fields|)| <= room then Some(slots) else None
  {
    hide GoodFields, WellFormed, EncodeMessage, DecodeLoop;
    var sink := new Sink();
    var out := new OStream(sink, room);
    var ok := PbEncode.PbEncode(out, fields, slots);
    if !ok {
      return None;
    }
    var s := new IStream(sink.bytes, 0, |sink.bytes|);
    assert s.Rest() == EncodeMessage(fields, slots, |fields|);
    MessageRoundTrip(fields, slots);
    r := DecodeNoInit(s, fields, Defaults(fields));
  }
}
