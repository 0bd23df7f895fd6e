/** Decoding what was encoded gives the message back, whatever unknown fields stand in between. */
module PbRoundTrip {
  import opened DbFormat
  import opened Coding
  import opened PbFormat
  import opened PbDecode

  // ----- single values -----

  lemma SignedBack(i: int, w: Width)
    requires -Modulus(w) <= 2 * i < Modulus(w)
    ensures 0 <= TwosComplement(i) < 0x1_0000_0000_0000_0000
    ensures DecodeSigned(TwosComplement(i), w) == Some(Int(i))
  {
    if i < 0 && !w.W64? {
      assert (i + 0x1_0000_0000_0000_0000) % 0x1_0000_0000 == i + 0x1_0000_0000;
    }
  }

  lemma ZigZagBack(i: int)
    ensures UnZigZag(ZigZag(i)) == i
  {
  }

  lemma {:induction false} ScalarRoundTrip(lt: LType, i: int, rest: Bytes)
    requires lt.Packable() && WellTyped(lt, Int(i))
    ensures EncodeScalar(lt, i) != []
    ensures DecodeScalar(lt, EncodeScalar(lt, i) + rest) == Some((Int(i), rest))
  {
    hide Varint, TakeVar32, TakeVarint64, Fixed32, Fixed64, DecodeFixed32, DecodeFixed64, TwosComplement, ZigZag, UnZigZag, DecodeSigned;
    match lt {
      case LBool => Var32Taken(i, rest);
      case LVarint(w) =>
        SignedBack(i, w);
        Varint64Taken(TwosComplement(i), rest);
      case LUVarint(w) => Varint64Taken(i, rest);
      case LSVarint(w) =>
        ZigZagRange(i, w);
        ZigZagBack(i);
        Varint64Taken(ZigZag(i), rest);
      case LFixed32 =>
        Fixed32RoundTrip(i);
        FixedTaken32(i, rest);
      case LFixed64 =>
        Fixed64RoundTrip(i);
        FixedTaken64(i, rest);
    }
  }

  lemma ZigZagRange(i: int, w: Width)
    requires -Modulus(w) <= 2 * i < Modulus(w)
    ensures 0 <= ZigZag(i) < 0x1_0000_0000_0000_0000
  {
  }

  lemma FixedTaken32(w: Word, rest: Bytes)
    ensures |Fixed32(w)| == 4 && (Fixed32(w) + rest)[..4] == Fixed32(w) && (Fixed32(w) + rest)[4..] == rest
  {
    assert |Fixed32(w)| == 4;
  }

  lemma FixedTaken64(w: Word64, rest: Bytes)
    ensures |Fixed64(w)| == 8 && (Fixed64(w) + rest)[..8] == Fixed64(w) && (Fixed64(w) + rest)[8..] == rest
  {
    hide Fixed32;
    FixedTaken32(w % 0x1_0000_0000, []);
    FixedTaken32(w / 0x1_0000_0000, []);
  }

  lemma SubTaken(b: Bytes, rest: Bytes)
    requires |b| < 0x1_0000_0000
    ensures TakeSub(Prefixed(b) + rest) == Some((b, rest))
  {
    hide Varint, TakeVar32;
    Var32Taken(|b|, b + rest);
    assert Prefixed(b) + rest == Varint(|b|) + (b + rest);
    assert (b + rest)[..|b|] == b && (b + rest)[|b|..] == rest;
  }

  lemma BlobTaken(room: int, b: Bytes, rest: Bytes)
    requires |b| <= room && |b| < 0x1_0000_0000
    ensures DecodeBlob(room, Prefixed(b) + rest) == Some((Blob(b), rest))
  {
    hide Varint, TakeVar32;
    Var32Taken(|b|, b + rest);
    assert Prefixed(b) + rest == Varint(|b|) + (b + rest);
    assert (b + rest)[..|b|] == b && (b + rest)[|b|..] == rest;
  }

  lemma {:induction false} PackedFront(lt: LType, items: seq<Value>)
    requires lt.Packable() && items != [] && forall i :: 0 <= i < |items| ==> WellTyped(lt, items[i])
    ensures EncodePacked(lt, items) == EncodeValue(lt, items[0]) + EncodePacked(lt, items[1..])
  {
    hide EncodeValue, WellTyped;
    if |items| == 1 {
      assert items[..0] == [] && items[1..] == [];
      assert EncodePacked(lt, []) == [];
    } else {
      var n := |items| - 1;
      PackedFront(lt, items[..n]);
      assert items[..n][1..] == items[1..][..n - 1];
    }
  }

  lemma {:induction false} PackedRoundTrip(lt: LType, items: seq<Value>, before: seq<Value>, max: nat)
    requires lt.Packable() && forall i :: 0 <= i < |items| ==> WellTyped(lt, items[i])
    requires |before| + |items| <= max
    ensures DecodePacked(lt, EncodePacked(lt, items), before, max) == Some(before + items)
    decreases |items|
  {
    hide DecodeScalar, EncodeScalar, LType.Packable;
    if items == [] {
      assert before + items == before;
    } else {
      PackedFront(lt, items);
      ScalarValue(lt, items[0]);
      ScalarRoundTrip(lt, items[0].i, EncodePacked(lt, items[1..]));
      PackedRoundTrip(lt, items[1..], before + [items[0]], max);
      assert before + [items[0]] + items[1..] == before + items;
    }
  }

  lemma ScalarValue(lt: LType, v: Value)
    requires lt.Packable() && WellTyped(lt, v)
    ensures v.Int? && EncodeValue(lt, v) == EncodeScalar(lt, v.i) && v == Int(v.i)
  {
  }

  // ----- records: what stands between two field boundaries -----

  // The payload of a field that the decoder does not know.
  datatype Payload = PVarint(bytes: Bytes) | PFixed64(bytes: Bytes) | PString(bytes: Bytes) | PFixed32(bytes: Bytes) {
    ghost predicate Valid() {
      match this
      case PVarint(b) => b != [] && b[|b| - 1] < 128 && forall i :: 0 <= i < |b| - 1 ==> b[i] >= 128
      case PFixed64(b) => |b| == 8
      case PString(b) => |b| < 0x1_0000_0000
      case PFixed32(b) => |b| == 4
    }

    function Wire(): nat {
      match this
      case PVarint(_) => VARINT
      case PFixed64(_) => FIXED64
      case PString(_) => STRING
      case PFixed32(_) => FIXED32
    }

    function Encoded(): Bytes {
      if PString? then Prefixed(bytes) else bytes
    }
  }

  // A nested message may be written out whole, or as the records that stand in it.
  datatype Record =
    | Known(i: nat, v: Value)
    | Packed(i: nat, items: seq<Value>)
    | Nested(i: nat, inner: seq<Record>)
    | Unknown(tag: nat, payload: Payload)

  ghost predicate GoodType(lt: LType)
    decreases lt, 1
  {
    lt.LMessage? ==> GoodFields(lt.fields)
  }

  ghost predicate GoodField(f: Field)
    decreases f, 2
  {
    0 < f.tag <= MAX_TAG && GoodType(f.ltype)
  }

  // Tags are distinct and in range, at every depth.
  ghost predicate GoodFields(fields: seq<Field>)
    decreases fields, 0
  {
    && (forall i :: 0 <= i < |fields| ==> GoodField(fields[i]))
    && (forall i, j :: 0 <= i < j < |fields| ==> fields[i].tag != fields[j].tag)
  }

  // One more value can be decoded into the slot; a message is decoded over its defaults.
  ghost predicate HasRoom(f: Field, s: Slot) {
    if f.htype.Repeated? then s.Many? && |s.items| < f.htype.max
    else s.One? && (f.ltype.LMessage? ==> s.v == Default(f.ltype))
  }

  // The record can be decoded into these slots.
  ghost predicate Fits(fields: seq<Field>, slots: seq<Slot>, r: Record)
    decreases r
  {
    && |slots| == |fields|
    && match r
       case Known(i, v) => i < |fields| && WellTyped(fields[i].ltype, v) && HasRoom(fields[i], slots[i])
       case Packed(i, items) =>
         && i < |fields| && fields[i].htype.Repeated? && fields[i].ltype.Packable()
         && slots[i].Many? && |slots[i].items| + |items| <= fields[i].htype.max
         && (forall k :: 0 <= k < |items| ==> WellTyped(fields[i].ltype, items[k]))
       case Nested(i, inner) =>
         && i < |fields| && fields[i].ltype.LMessage? && HasRoom(fields[i], slots[i])
         && FitAll(fields[i].ltype.fields, Defaults(fields[i].ltype.fields), inner)
       case Unknown(tag, payload) => 0 < tag <= MAX_TAG && FindField(fields, tag) == None && payload.Valid()
  }

  // Every record fits the slots as the records before it leave them.
  ghost predicate FitAll(fields: seq<Field>, slots: seq<Slot>, rs: seq<Record>)
    decreases rs, 0
  {
    rs == [] || (Fits(fields, slots, rs[0]) && FitAll(fields, Apply(fields, slots, rs[0]), rs[1..]))
  }

  // A record of this field.
  predicate IsOf(r: Record, i: nat) {
    !r.Unknown? && r.i == i
  }

  /** Every required field with fewer than 64 required fields before it occurs among the records,
      and the same holds of every nested message that is written as its records. */
  ghost predicate RequiredThere(fields: seq<Field>, rs: seq<Record>)
    decreases rs
  {
    && (forall i :: 0 <= i < |fields| && fields[i].htype.Required? && |set j | 0 <= j < i && fields[j].htype.Required?| < 64 ==>
          exists k :: 0 <= k < |rs| && IsOf(rs[k], i))
    && (forall k :: 0 <= k < |rs| && rs[k].Nested? && rs[k].i < |fields| && fields[rs[k].i].ltype.LMessage? ==>
          RequiredThere(fields[rs[k].i].ltype.fields, rs[k].inner))
  }

  // The decoder's view of it.
  ghost predicate Complete(fields: seq<Field>, rs: seq<Record>)
    decreases rs, 1
  {
    && NestedComplete(fields, rs)
    && Finish(fields, ApplyAll(fields, Defaults(fields), rs), SeenByAll(rs)).Some?
  }

  ghost predicate NestedComplete(fields: seq<Field>, rs: seq<Record>)
    decreases rs, 0
  {
    rs == [] || (RecordComplete(fields, rs[0]) && NestedComplete(fields, rs[1..]))
  }

  ghost predicate RecordComplete(fields: seq<Field>, r: Record)
    decreases r
  {
    r.Nested? && r.i < |fields| && fields[r.i].ltype.LMessage? ==> Complete(fields[r.i].ltype.fields, r.inner)
  }

  function Put(slots: seq<Slot>, i: nat, v: Value): (s: seq<Slot>)
    ensures |s| == |slots|
  {
    if i < |slots| then slots[i := if slots[i].Many? then Many(slots[i].items + [v]) else One(true, v)] else slots
  }

  function Apply(fields: seq<Field>, slots: seq<Slot>, r: Record): (s: seq<Slot>)
    ensures |s| == |slots|
    decreases r
  {
    match r
    case Known(i, v) => Put(slots, i, v)
    case Packed(i, items) =>
      if i < |slots| && slots[i].Many? then slots[i := Many(slots[i].items + items)] else slots
    case Nested(i, inner) =>
      if i < |fields| && fields[i].ltype.LMessage? then Put(slots, i, MessageOf(fields[i].ltype.fields, inner)) else slots
    case Unknown(_, _) => slots
  }

  function ApplyAll(fields: seq<Field>, slots: seq<Slot>, rs: seq<Record>): (s: seq<Slot>)
    ensures |s| == |slots|
    decreases rs, 0
  {
    if rs == [] then slots else ApplyAll(fields, Apply(fields, slots, rs[0]), rs[1..])
  }

  function MessageOf(fields: seq<Field>, rs: seq<Record>): Value
    decreases rs, 1
  {
    Message(ApplyAll(fields, Defaults(fields), rs))
  }

  function EncodeRecord(fields: seq<Field>, slots: seq<Slot>, r: Record): Bytes
    requires Fits(fields, slots, r)
    decreases r
  {
    match r
    case Known(i, v) => Tag(WireType(fields[i].ltype), fields[i].tag) + EncodeValue(fields[i].ltype, v)
    case Packed(i, items) => Tag(STRING, fields[i].tag) + Prefixed(EncodePacked(fields[i].ltype, items))
    case Nested(i, inner) =>
      var sub := fields[i].ltype.fields;
      Tag(STRING, fields[i].tag) + Prefixed(EncodeAll(sub, Defaults(sub), inner))
    case Unknown(tag, payload) => Tag(payload.Wire(), tag) + payload.Encoded()
  }

  function EncodeAll(fields: seq<Field>, slots: seq<Slot>, rs: seq<Record>): Bytes
    requires FitAll(fields, slots, rs)
    decreases rs
  {
    if rs == [] then [] else EncodeRecord(fields, slots, rs[0]) + EncodeAll(fields, Apply(fields, slots, rs[0]), rs[1..])
  }

  function SeenBy(r: Record): set<nat> {
    if r.Unknown? then {} else {r.i}
  }

  function SeenByAll(rs: seq<Record>): set<nat> {
    if rs == [] then {} else SeenBy(rs[0]) + SeenByAll(rs[1..])
  }

  // ----- decoding one record -----

  lemma {:induction false} FindsField(fields: seq<Field>, i: nat)
    requires i < |fields| && forall j, k :: 0 <= j < k < |fields| ==> fields[j].tag != fields[k].tag
    ensures FindField(fields, fields[i].tag) == Some(i)
  {
    if i < |fields| - 1 {
      FindsField(fields[..|fields| - 1], i);
    }
  }

  lemma TagTaken(wire: nat, tag: nat, rest: Bytes)
    requires wire < 8 && 0 < tag <= MAX_TAG
    ensures Tag(wire, tag) != [] && TakeVar32(Tag(wire, tag) + rest) == Some((tag * 8 + wire, rest))
    ensures (tag * 8 + wire) / 8 == tag && (tag * 8 + wire) % 8 == wire
  {
    hide Varint, TakeVar32;
    Var32Taken(tag * 8 + wire, rest);
  }

  lemma {:induction false} VarintSkipped(b: Bytes, rest: Bytes)
    requires PVarint(b).Valid()
    ensures SkipVarint(b + rest) == Some(rest)
  {
    if |b| == 1 {
      assert (b + rest)[1..] == rest;
    } else {
      assert (b + rest)[1..] == b[1..] + rest;
      VarintSkipped(b[1..], rest);
    }
  }

  lemma PayloadSkipped(p: Payload, rest: Bytes)
    requires p.Valid()
    ensures SkipField(p.Wire(), p.Encoded() + rest) == Some(rest)
  {
    hide SkipVarint, TakeVar32, Varint;
    match p {
      case PVarint(b) => VarintSkipped(b, rest);
      case PFixed64(b) => assert (b + rest)[8..] == rest;
      case PFixed32(b) => assert (b + rest)[4..] == rest;
      case PString(b) =>
        Var32Taken(|b|, b + rest);
        assert Prefixed(b) + rest == Varint(|b|) + (b + rest);
        assert (b + rest)[|b|..] == rest;
    }
  }

  // One turn of the loop at a known tag, and at an unknown one.
  lemma KnownTurn(fields: seq<Field>, wire: nat, i: nat, body: Bytes, slots: seq<Slot>, seen: set<nat>, slot: Slot, rest: Bytes)
    requires GoodFields(fields) && |slots| == |fields| && i < |fields| && wire < 8
    requires DecodeField(fields[i], wire, body, slots[i]) == Some((slot, rest))
    ensures DecodeLoop(fields, Tag(wire, fields[i].tag) + body, slots, seen) == DecodeLoop(fields, rest, slots[i := slot], seen + {i})
  {
    TagTaken(wire, fields[i].tag, body);
    FindsField(fields, i);
    hide Tag, TakeVar32, FindField, DecodeField, Finish;
  }

  lemma FailedTurn(fields: seq<Field>, wire: nat, i: nat, body: Bytes, slots: seq<Slot>, seen: set<nat>)
    requires GoodFields(fields) && |slots| == |fields| && i < |fields| && wire < 8
    requires DecodeField(fields[i], wire, body, slots[i]) == None
    ensures DecodeLoop(fields, Tag(wire, fields[i].tag) + body, slots, seen) == None
  {
    TagTaken(wire, fields[i].tag, body);
    FindsField(fields, i);
    hide Tag, TakeVar32, FindField, DecodeField, Finish;
  }

  lemma UnknownTurn(fields: seq<Field>, tag: nat, payload: Payload, slots: seq<Slot>, seen: set<nat>, rest: Bytes)
    requires |slots| == |fields| && 0 < tag <= MAX_TAG && FindField(fields, tag) == None && payload.Valid()
    ensures DecodeLoop(fields, Tag(payload.Wire(), tag) + (payload.Encoded() + rest), slots, seen) == DecodeLoop(fields, rest, slots, seen)
  {
    TagTaken(payload.Wire(), tag, payload.Encoded() + rest);
    PayloadSkipped(payload, rest);
    hide Tag, TakeVar32, FindField, SkipField, Finish;
  }

  lemma {:induction false} ValueRoundTrip(lt: LType, v: Value, current: Value, rest: Bytes)
    requires WellTyped(lt, v) && GoodType(lt) && |EncodeValue(lt, v)| < 0x1_0000_0000
    requires lt.LMessage? ==> current == Default(lt)
    ensures DecodeValue(lt, EncodeValue(lt, v) + rest, current) == Some((v, rest))
    decreases lt, 1
  {
    hide EncodeScalar, EncodeMessage, DecodeScalar, DecodeBlob, DecodeLoop, Prefixed, TakeSub, Defaults, WellFormed;
    if lt.Packable() {
      ScalarValue(lt, v);
      ScalarRoundTrip(lt, v.i, rest);
    } else if lt.LMessage? {
      var bytes := EncodeMessage(lt.fields, v.slots, |lt.fields|);
      PrefixedLength(bytes);
      SubTaken(bytes, rest);
      MessageRoundTrip(lt.fields, v.slots);
    } else {
      PrefixedLength(v.b);
      BlobTaken(if lt.LBytes? then lt.max else lt.max - 1, v.b, rest);
    }
  }

  lemma {:induction false} FieldValueRoundTrip(f: Field, v: Value, current: Value, rest: Bytes)
    requires WellTyped(f.ltype, v) && GoodField(f) && |EncodeValue(f.ltype, v)| < 0x1_0000_0000
    requires f.ltype.LMessage? ==> current == Default(f.ltype)
    ensures DecodeValue(f.ltype, EncodeValue(f.ltype, v) + rest, current) == Some((v, rest))
    decreases f, 2
  {
    ValueRoundTrip(f.ltype, v, current, rest);
  }

  // A nested message written as its records is the value that these make up.
  lemma {:induction false} NestedDecodes(f: Field, inner: seq<Record>, rest: Bytes)
    requires f.ltype.LMessage? && GoodField(f) && FitAll(f.ltype.fields, Defaults(f.ltype.fields), inner)
    requires |EncodeAll(f.ltype.fields, Defaults(f.ltype.fields), inner)| < 0x1_0000_0000
    ensures var sub := f.ltype.fields;
            DecodeValue(f.ltype, Prefixed(EncodeAll(sub, Defaults(sub), inner)) + rest, Default(f.ltype)) ==
            if Complete(sub, inner) then Some((MessageOf(sub, inner), rest)) else None
    decreases f, 2
  {
    hide FitAll, EncodeAll, ApplyAll, SeenByAll, DecodeLoop, Prefixed, TakeSub, Defaults, NestedComplete;
    var sub := f.ltype.fields;
    SubTaken(EncodeAll(sub, Defaults(sub), inner), rest);
    RecordsDecode(sub, Defaults(sub), {}, inner);
    assert {} + SeenByAll(inner) == SeenByAll(inner);
  }

  lemma PrefixedLength(b: Bytes)
    ensures |b| < |Prefixed(b)|
  {
  }

  lemma {:induction false} RecordDecodes(fields: seq<Field>, slots: seq<Slot>, seen: set<nat>, r: Record, rest: Bytes)
    requires GoodFields(fields) && Fits(fields, slots, r) && |EncodeRecord(fields, slots, r)| < 0x1_0000_0000
    ensures DecodeLoop(fields, EncodeRecord(fields, slots, r) + rest, slots, seen) ==
            if RecordComplete(fields, r) then DecodeLoop(fields, rest, Apply(fields, slots, r), seen + SeenBy(r)) else None
    decreases fields, 0
  {
    hide Tag, EncodeValue, DecodeValue, DecodeLoop, EncodePacked, DecodePacked, TakeSub, Prefixed, WellTyped, Default, GoodType, Complete;
    match r {
      case Known(i, v) =>
        var f := fields[i];
        var a, b := Tag(WireType(f.ltype), f.tag), EncodeValue(f.ltype, v);
        assert a + b + rest == a + (b + rest);
        var current := if f.htype.Repeated? then Default(f.ltype) else slots[i].v;
        FieldValueRoundTrip(f, v, current, rest);
        KnownTurn(fields, WireType(f.ltype), i, b + rest, slots, seen, Apply(fields, slots, r)[i], rest);
      case Packed(i, items) =>
        var f := fields[i];
        var a, b := Tag(STRING, f.tag), EncodePacked(f.ltype, items);
        assert a + Prefixed(b) + rest == a + (Prefixed(b) + rest);
        PrefixedLength(b);
        SubTaken(b, rest);
        PackedRoundTrip(f.ltype, items, slots[i].items, f.htype.max);
        KnownTurn(fields, STRING, i, Prefixed(b) + rest, slots, seen, Apply(fields, slots, r)[i], rest);
      case Nested(i, inner) =>
        var f := fields[i];
        var a, b := Tag(STRING, f.tag), EncodeAll(f.ltype.fields, Defaults(f.ltype.fields), inner);
        assert a + Prefixed(b) + rest == a + (Prefixed(b) + rest);
        PrefixedLength(b);
        NestedDecodes(f, inner, rest);
        if Complete(f.ltype.fields, inner) {
          KnownTurn(fields, STRING, i, Prefixed(b) + rest, slots, seen, Apply(fields, slots, r)[i], rest);
        } else {
          FailedTurn(fields, STRING, i, Prefixed(b) + rest, slots, seen);
        }
      case Unknown(tag, payload) =>
        var a, b := Tag(payload.Wire(), tag), payload.Encoded();
        assert a + b + rest == a + (b + rest);
        UnknownTurn(fields, tag, payload, slots, seen, rest);
        assert seen + {} == seen;
    }
  }

  // ----- lists of records -----

  lemma {:induction false} RecordsDecode(fields: seq<Field>, slots: seq<Slot>, seen: set<nat>, rs: seq<Record>)
    requires GoodFields(fields) && |slots| == |fields| && FitAll(fields, slots, rs) && |EncodeAll(fields, slots, rs)| < 0x1_0000_0000
    ensures DecodeLoop(fields, EncodeAll(fields, slots, rs), slots, seen) ==
            if NestedComplete(fields, rs) then Finish(fields, ApplyAll(fields, slots, rs), seen + SeenByAll(rs)) else None
    decreases fields, 1, |rs|
  {
    hide EncodeRecord, Fits, Apply, Finish, RecordComplete;
    if rs == [] {
      assert seen + {} == seen;
    } else {
      var rest := EncodeAll(fields, Apply(fields, slots, rs[0]), rs[1..]);
      hide DecodeLoop;
      RecordDecodes(fields, slots, seen, rs[0], rest);
      assert NestedComplete(fields, rs) <==> RecordComplete(fields, rs[0]) && NestedComplete(fields, rs[1..]);
      RecordsDecode(fields, Apply(fields, slots, rs[0]), seen + SeenBy(rs[0]), rs[1..]);
      assert seen + SeenBy(rs[0]) + SeenByAll(rs[1..]) == seen + SeenByAll(rs);
    }
  }

  lemma {:induction false} AppliedConcat(fields: seq<Field>, slots: seq<Slot>, a: seq<Record>, b: seq<Record>)
    ensures ApplyAll(fields, slots, a + b) == ApplyAll(fields, ApplyAll(fields, slots, a), b)
    ensures FitAll(fields, slots, a + b) <==> FitAll(fields, slots, a) && FitAll(fields, ApplyAll(fields, slots, a), b)
    ensures SeenByAll(a + b) == SeenByAll(a) + SeenByAll(b)
    decreases |a|
  {
    hide Fits, Apply;
    if a == [] {
      assert a + b == b;
    } else {
      assert (a + b)[1..] == a[1..] + b;
      AppliedConcat(fields, Apply(fields, slots, a[0]), a[1..], b);
    }
  }

  lemma {:induction false} EncodedConcat(fields: seq<Field>, slots: seq<Slot>, a: seq<Record>, b: seq<Record>)
    requires FitAll(fields, slots, a) && FitAll(fields, ApplyAll(fields, slots, a), b)
    ensures FitAll(fields, slots, a + b)
    ensures EncodeAll(fields, slots, a + b) == EncodeAll(fields, slots, a) + EncodeAll(fields, ApplyAll(fields, slots, a), b)
    decreases |a|
  {
    hide Fits, Apply, EncodeRecord;
    AppliedConcat(fields, slots, a, b);
    if a == [] {
      assert a + b == b;
    } else {
      assert (a + b)[1..] == a[1..] + b;
      EncodedConcat(fields, Apply(fields, slots, a[0]), a[1..], b);
    }
  }

  // ----- when a message is accepted -----

  lemma {:induction false} PlainComplete(fields: seq<Field>, rs: seq<Record>)
    requires forall i :: 0 <= i < |rs| ==> rs[i].Known? || rs[i].Packed?
    ensures NestedComplete(fields, rs)
  {
    if rs != [] {
      PlainComplete(fields, rs[1..]);
    }
  }

  lemma {:induction false} RequiredCount(fields: seq<Field>, n: nat)
    requires n <= |fields|
    ensures RequiredBefore(fields, n) == |set j | 0 <= j < n && fields[j].htype.Required?|
  {
    if n > 0 {
      RequiredCount(fields, n - 1);
      OneMoreRequired(fields, n - 1);
    }
  }

  lemma OneMoreRequired(fields: seq<Field>, n: nat)
    requires n < |fields|
    ensures |set j | 0 <= j < n + 1 && fields[j].htype.Required?| ==
            |set j | 0 <= j < n && fields[j].htype.Required?| + if fields[n].htype.Required? then 1 else 0
  {
    var a, b := set j | 0 <= j < n && fields[j].htype.Required?, set j | 0 <= j < n + 1 && fields[j].htype.Required?;
    assert b == if fields[n].htype.Required? then a + {n} else a;
  }

  lemma {:induction false} SeenMeans(rs: seq<Record>, i: nat)
    ensures i in SeenByAll(rs) <==> exists k :: 0 <= k < |rs| && IsOf(rs[k], i)
  {
    if rs != [] {
      SeenMeans(rs[1..], i);
      if i in SeenByAll(rs[1..]) {
        var k :| 0 <= k < |rs[1..]| && IsOf(rs[1..][k], i);
        assert IsOf(rs[k + 1], i);
      }
      forall k | 0 <= k < |rs| && IsOf(rs[k], i) ensures i in SeenByAll(rs) {
        assert k > 0 ==> IsOf(rs[1..][k - 1], i);
      }
      assert i in SeenBy(rs[0]) ==> IsOf(rs[0], i);
    }
  }

  lemma FinishMeans(fields: seq<Field>, slots: seq<Slot>, rs: seq<Record>)
    ensures Finish(fields, slots, SeenByAll(rs)) == None || Finish(fields, slots, SeenByAll(rs)) == Some(slots)
    ensures Finish(fields, slots, SeenByAll(rs)).Some? <==>
            forall i :: 0 <= i < |fields| && fields[i].htype.Required? && |set j | 0 <= j < i && fields[j].htype.Required?| < 64 ==>
              exists k :: 0 <= k < |rs| && IsOf(rs[k], i)
  {
    forall i | 0 <= i < |fields|
      ensures RequiredBefore(fields, i) == |set j | 0 <= j < i && fields[j].htype.Required?|
      ensures i in SeenByAll(rs) <==> exists k :: 0 <= k < |rs| && IsOf(rs[k], i)
    {
      RequiredCount(fields, i);
      SeenMeans(rs, i);
    }
    hide SeenByAll, IsOf, RequiredBefore;
  }

  lemma {:induction false} CompleteIff(fields: seq<Field>, rs: seq<Record>)
    ensures Complete(fields, rs) <==> RequiredThere(fields, rs)
    decreases rs, 1
  {
    FinishMeans(fields, ApplyAll(fields, Defaults(fields), rs), rs);
    NestedIff(fields, rs);
    hide Finish, ApplyAll, SeenByAll, NestedComplete, IsOf;
  }

  lemma {:induction false} NestedIff(fields: seq<Field>, rs: seq<Record>)
    ensures NestedComplete(fields, rs) <==>
            forall k :: 0 <= k < |rs| && rs[k].Nested? && rs[k].i < |fields| && fields[rs[k].i].ltype.LMessage? ==>
              RequiredThere(fields[rs[k].i].ltype.fields, rs[k].inner)
    decreases rs, 0
  {
    if rs != [] {
      NestedIff(fields, rs[1..]);
      if rs[0].Nested? && rs[0].i < |fields| && fields[rs[0].i].ltype.LMessage? {
        CompleteIff(fields[rs[0].i].ltype.fields, rs[0].inner);
      }
      hide RequiredThere, Complete;
      assert forall k :: 0 <= k < |rs| - 1 ==> rs[1..][k] == rs[k + 1];
      assert forall k :: 0 < k < |rs| ==> rs[k] == rs[1..][k - 1];
    }
  }

  /** What is decoded over the defaults, records in any order, repeated, with unknown ones in
      between: it succeeds if and only if no required field is missing, at any depth, as far as
      the decoder keeps track of them, and gives the slots that the records make up. */
  lemma DecodesIff(fields: seq<Field>, rs: seq<Record>)
    requires GoodFields(fields) && FitAll(fields, Defaults(fields), rs)
    requires |EncodeAll(fields, Defaults(fields), rs)| < 0x1_0000_0000
    ensures Decode(fields, EncodeAll(fields, Defaults(fields), rs)) ==
            if RequiredThere(fields, rs) then Some(ApplyAll(fields, Defaults(fields), rs)) else None
  {
    hide GoodFields, FitAll, EncodeAll, DecodeLoop;
    RecordsDecode(fields, Defaults(fields), {}, rs);
    assert {} + SeenByAll(rs) == SeenByAll(rs);
    CompleteIff(fields, rs);
    FinishMeans(fields, ApplyAll(fields, Defaults(fields), rs), rs);
    hide ApplyAll, RequiredThere, NestedComplete, SeenByAll, Finish;
  }

  // ----- the records of a message -----

  function ItemRecords(i: nat, items: seq<Value>): seq<Record> {
    seq(|items|, k requires 0 <= k < |items| => Known(i, items[k]))
  }

  function SlotRecords(i: nat, f: Field, s: Slot): seq<Record> {
    if s.Many? then
      if s.items == [] then [] else if f.ltype.Packable() then [Packed(i, s.items)] else ItemRecords(i, s.items)
    else if (f.htype.Optional? && !s.has) || (f.htype.Singular? && IsZero(f.ltype, s.v)) then []
    else [Known(i, s.v)]
  }

  function RecordsOf(fields: seq<Field>, slots: seq<Slot>, n: nat): seq<Record>
    requires WellFormed(fields, slots) && n <= |fields|
  {
    if n == 0 then [] else RecordsOf(fields, slots, n - 1) + SlotRecords(n - 1, fields[n - 1], slots[n - 1])
  }

  // The records of one field turn its default slot into the slot, and encode to its bytes.
  lemma SlotApplied(fields: seq<Field>, slots: seq<Slot>, i: nat, s: Slot)
    requires i < |fields| == |slots| && WellFormedSlot(fields[i], s) && slots[i] == DefaultSlot(fields[i])
    ensures var rs := SlotRecords(i, fields[i], s);
            && FitAll(fields, slots, rs) && ApplyAll(fields, slots, rs) == slots[i := s] && EncodeAll(fields, slots, rs) == EncodeSlot(fields[i], s)
            && (fields[i].htype.Required? ==> i in SeenByAll(rs))
  {
    hide EncodeValue, EncodePacked, EncodeItems, Tag, WellTyped, Default;
    var f := fields[i];
    if f.htype.Repeated? {
      assert slots[i] == Many([]);
      if s.items != [] && !f.ltype.Packable() {
        ItemsApplied(fields, slots, i, s.items, []);
        assert [] + s.items == s.items;
      } else if s.items != [] {
        assert [] + s.items == s.items;
        OneApplied(fields, slots, Packed(i, s.items));
      } else {
        assert slots[i := s] == slots;
      }
    } else if f.htype.Required? || (f.htype.Optional? && s.has) || (f.htype.Singular? && !IsZero(f.ltype, s.v)) {
      OneApplied(fields, slots, Known(i, s.v));
    } else {
      if f.htype.Singular? {
        ZeroIsDefault(f.ltype, s.v);
      }
      assert slots[i := s] == slots;
    }
  }

  lemma OneApplied(fields: seq<Field>, slots: seq<Slot>, r: Record)
    requires Fits(fields, slots, r)
    ensures FitAll(fields, slots, [r]) && ApplyAll(fields, slots, [r]) == Apply(fields, slots, r) && EncodeAll(fields, slots, [r]) == EncodeRecord(fields, slots, r)
    ensures SeenByAll([r]) == SeenBy(r)
  {
    hide Fits, EncodeRecord, Apply;
    assert [r][1..] == [];
    assert FitAll(fields, Apply(fields, slots, r), []) && EncodeAll(fields, Apply(fields, slots, r), []) == [];
  }

  lemma {:induction false} ItemsApplied(fields: seq<Field>, slots: seq<Slot>, i: nat, items: seq<Value>, before: seq<Value>)
    requires i < |fields| == |slots| && fields[i].htype.Repeated? && !fields[i].ltype.Packable()
    requires slots[i] == Many(before) && |before| + |items| <= fields[i].htype.max
    requires forall k :: 0 <= k < |items| ==> WellTyped(fields[i].ltype, items[k])
    ensures FitAll(fields, slots, ItemRecords(i, items)) && ApplyAll(fields, slots, ItemRecords(i, items)) == slots[i := Many(before + items)]
    ensures EncodeAll(fields, slots, ItemRecords(i, items)) == EncodeItems(fields[i], items)
    decreases |items|
  {
    hide EncodeValue, Tag, WellTyped;
    if items == [] {
      assert before + items == before && slots[i := Many(before)] == slots;
    } else {
      var n := |items| - 1;
      var init, last := ItemRecords(i, items[..n]), Known(i, items[n]);
      assert ItemRecords(i, items) == init + [last];
      ItemsApplied(fields, slots, i, items[..n], before);
      var next := slots[i := Many(before + items[..n])];
      OneApplied(fields, next, last);
      EncodedConcat(fields, slots, init, [last]);
      AppliedConcat(fields, slots, init, [last]);
      assert before + items[..n] + [items[n]] == before + items;
    }
  }

  // After the records of the first n fields, these have their slots and the others the defaults.
  lemma {:induction false} RecordsApplied(fields: seq<Field>, slots: seq<Slot>, n: nat)
    requires WellFormed(fields, slots) && n <= |fields|
    ensures var rs := RecordsOf(fields, slots, n);
            && FitAll(fields, Defaults(fields), rs)
            && ApplyAll(fields, Defaults(fields), rs) == slots[..n] + Defaults(fields)[n..]
            && EncodeAll(fields, Defaults(fields), rs) == EncodeMessage(fields, slots, n)
            && (forall i :: 0 <= i < n && fields[i].htype.Required? ==> i in SeenByAll(rs))
  {
    hide EncodeSlot, SlotRecords, WellFormedSlot, FitAll, ApplyAll, EncodeAll, SeenByAll;
    if n == 0 {
      NoRecords(fields, Defaults(fields));
      assert slots[..0] + Defaults(fields)[0..] == Defaults(fields);
    } else {
      RecordsApplied(fields, slots, n - 1);
      hide RecordsOf, EncodeMessage;
      OneFieldMore(fields, slots, n - 1, RecordsOf(fields, slots, n - 1));
      LastField(fields, slots, n);
    }
  }

  lemma NoRecords(fields: seq<Field>, slots: seq<Slot>)
    ensures FitAll(fields, slots, []) && ApplyAll(fields, slots, []) == slots && EncodeAll(fields, slots, []) == []
  {
  }

  lemma LastField(fields: seq<Field>, slots: seq<Slot>, n: nat)
    requires WellFormed(fields, slots) && 0 < n <= |fields|
    ensures RecordsOf(fields, slots, n) == RecordsOf(fields, slots, n - 1) + SlotRecords(n - 1, fields[n - 1], slots[n - 1])
    ensures EncodeMessage(fields, slots, n) == EncodeMessage(fields, slots, n - 1) + EncodeSlot(fields[n - 1], slots[n - 1])
  {
    hide SlotRecords, EncodeSlot;
  }

  lemma OneFieldMore(fields: seq<Field>, slots: seq<Slot>, i: nat, before: seq<Record>)
    requires WellFormed(fields, slots) && i < |fields|
    requires FitAll(fields, Defaults(fields), before) && ApplyAll(fields, Defaults(fields), before) == slots[..i] + Defaults(fields)[i..]
    ensures var rs := before + SlotRecords(i, fields[i], slots[i]);
            && FitAll(fields, Defaults(fields), rs)
            && ApplyAll(fields, Defaults(fields), rs) == slots[..i + 1] + Defaults(fields)[i + 1..]
            && EncodeAll(fields, Defaults(fields), rs) == EncodeAll(fields, Defaults(fields), before) + EncodeSlot(fields[i], slots[i])
            && SeenByAll(before) <= SeenByAll(rs) && (fields[i].htype.Required? ==> i in SeenByAll(rs))
  {
    hide EncodeSlot, SlotRecords, WellFormedSlot, FitAll, ApplyAll, EncodeAll, SeenByAll;
    var now, b := slots[..i] + Defaults(fields)[i..], SlotRecords(i, fields[i], slots[i]);
    assert now[i] == DefaultSlot(fields[i]);
    SlotApplied(fields, now, i, slots[i]);
    EncodedConcat(fields, Defaults(fields), before, b);
    AppliedConcat(fields, Defaults(fields), before, b);
    assert now[i := slots[i]] == slots[..i + 1] + Defaults(fields)[i + 1..];
  }

  lemma {:induction false} MessageRoundTrip(fields: seq<Field>, slots: seq<Slot>)
    requires GoodFields(fields) && WellFormed(fields, slots) && |EncodeMessage(fields, slots, |fields|)| < 0x1_0000_0000
    ensures DecodeLoop(fields, EncodeMessage(fields, slots, |fields|), Defaults(fields), {}) == Some(slots)
    decreases fields, 2
  {
    hide WellFormedSlot, EncodeMessage, DecodeLoop, GoodField, FitAll, EncodeAll, ApplyAll, SeenByAll, RecordsOf;
    RecordsApplied(fields, slots, |fields|);
    assert slots[..|fields|] + Defaults(fields)[|fields|..] == slots;
    EncoderWritesNoUnknowns(fields, slots, |fields|);
    PlainComplete(fields, RecordsOf(fields, slots, |fields|));
    RecordsDecode(fields, Defaults(fields), {}, RecordsOf(fields, slots, |fields|));
    assert forall i :: i in SeenByAll(RecordsOf(fields, slots, |fields|)) ==> i in {} + SeenByAll(RecordsOf(fields, slots, |fields|));
  }

  // ----- unknown fields in between -----

  // The records are the known ones with unknown fields in between, also inside nested messages.
  ghost predicate Interspersed(fields: seq<Field>, rs: seq<Record>, known: seq<Record>)
    decreases rs
  {
    if rs == [] then known == []
    else if rs[0].Unknown? then GoodUnknown(fields, rs[0]) && Interspersed(fields, rs[1..], known)
    else known != [] && SpelledOut(fields, rs[0], known[0]) && Interspersed(fields, rs[1..], known[1..])
  }

  ghost predicate GoodUnknown(fields: seq<Field>, r: Record)
    requires r.Unknown?
  {
    0 < r.tag <= MAX_TAG && FindField(fields, r.tag) == None && r.payload.Valid()
  }

  ghost predicate SpelledOut(fields: seq<Field>, r: Record, known: Record)
    decreases r
  {
    if !r.Nested? then r == known
    else
      && known.Known? && known.i == r.i < |fields| && fields[r.i].ltype.LMessage?
      && known.v.Message? && WellFormed(fields[r.i].ltype.fields, known.v.slots)
      && Interspersed(fields[r.i].ltype.fields, r.inner, AllRecords(fields[r.i].ltype.fields, known.v.slots))
  }

  // The records that the encoder writes for a message.
  function AllRecords(fields: seq<Field>, slots: seq<Slot>): seq<Record>
    requires WellFormed(fields, slots)
  {
    RecordsOf(fields, slots, |fields|)
  }

  // They fit, make up the message and include its required fields.
  lemma AllRecordsApplied(fields: seq<Field>, slots: seq<Slot>)
    requires WellFormed(fields, slots)
    ensures FitAll(fields, Defaults(fields), AllRecords(fields, slots))
    ensures ApplyAll(fields, Defaults(fields), AllRecords(fields, slots)) == slots
    ensures Finish(fields, slots, SeenByAll(AllRecords(fields, slots))) == Some(slots)
    ensures NestedComplete(fields, AllRecords(fields, slots))
  {
    EncoderWritesNoUnknowns(fields, slots, |fields|);
    PlainComplete(fields, AllRecords(fields, slots));
    hide WellFormedSlot, FitAll, ApplyAll, SeenByAll, RecordsOf, EncodeMessage, EncodeAll, DefaultSlot;
    RecordsApplied(fields, slots, |fields|);
    assert slots[..|fields|] + Defaults(fields)[|fields|..] == slots;
  }

  lemma {:induction false} UnknownsChangeNothing(fields: seq<Field>, slots: seq<Slot>, rs: seq<Record>, known: seq<Record>)
    requires |slots| == |fields| && Interspersed(fields, rs, known) && FitAll(fields, slots, known) && NestedComplete(fields, known)
    ensures NestedComplete(fields, rs)
    ensures FitAll(fields, slots, rs) && ApplyAll(fields, slots, rs) == ApplyAll(fields, slots, known) && SeenByAll(rs) == SeenByAll(known)
    decreases rs
  {
    hide Fits, Apply, SpelledOut, RecordComplete;
    if rs != [] {
      if rs[0].Unknown? {
        UnknownFits(fields, slots, rs[0]);
        UnknownsChangeNothing(fields, slots, rs[1..], known);
      } else {
        SpelledOutSame(fields, slots, rs[0], known[0]);
        UnknownsChangeNothing(fields, Apply(fields, slots, rs[0]), rs[1..], known[1..]);
      }
    }
  }

  lemma UnknownFits(fields: seq<Field>, slots: seq<Slot>, r: Record)
    requires |slots| == |fields| && r.Unknown? && GoodUnknown(fields, r)
    ensures Fits(fields, slots, r) && Apply(fields, slots, r) == slots && SeenBy(r) == {} && RecordComplete(fields, r)
  {
  }

  lemma {:induction false} SpelledOutSame(fields: seq<Field>, slots: seq<Slot>, r: Record, known: Record)
    requires Fits(fields, slots, known) && SpelledOut(fields, r, known) && !r.Unknown? && RecordComplete(fields, known)
    ensures RecordComplete(fields, r)
    ensures Fits(fields, slots, r) && Apply(fields, slots, r) == Apply(fields, slots, known) && SeenBy(r) == SeenBy(known)
    decreases r
  {
    if r.Nested? {
      var sub := fields[r.i].ltype.fields;
      AllRecordsApplied(sub, known.v.slots);
      UnknownsChangeNothing(sub, Defaults(sub), r.inner, AllRecords(sub, known.v.slots));
      hide FitAll, ApplyAll, SeenByAll, AllRecords, Interspersed, WellFormed, HasRoom, WellTyped, Defaults, NestedComplete;
      assert Complete(sub, r.inner) && MessageOf(sub, r.inner) == known.v;
    }
  }

  /** Decoding gives the message back from its encoding with any well-formed fields of unknown,
      nonzero tags inserted at the field boundaries, of the message itself and of the messages
      nested in it at every depth. */
  lemma RoundTrip(fields: seq<Field>, slots: seq<Slot>, rs: seq<Record>)
    requires GoodFields(fields) && WellFormed(fields, slots) && Interspersed(fields, rs, AllRecords(fields, slots))
    ensures FitAll(fields, Defaults(fields), rs)
    ensures |EncodeAll(fields, Defaults(fields), rs)| < 0x1_0000_0000 ==> Decode(fields, EncodeAll(fields, Defaults(fields), rs)) == Some(slots)
  {
    hide WellFormed, DecodeLoop, GoodFields, FitAll, EncodeAll, ApplyAll, SeenByAll, AllRecords, Interspersed, Finish;
    AllRecordsApplied(fields, slots);
    UnknownsChangeNothing(fields, Defaults(fields), rs, AllRecords(fields, slots));
    if |EncodeAll(fields, Defaults(fields), rs)| < 0x1_0000_0000 {
      RecordsDecode(fields, Defaults(fields), {}, rs);
      assert {} + SeenByAll(rs) == SeenByAll(rs);
    }
  }

  /** With nothing inserted, the bytes are those the encoder writes. */
  lemma RecordsAreEncoding(fields: seq<Field>, slots: seq<Slot>)
    requires GoodFields(fields) && WellFormed(fields, slots)
    ensures FitAll(fields, Defaults(fields), AllRecords(fields, slots))
    ensures EncodeAll(fields, Defaults(fields), AllRecords(fields, slots)) == EncodeMessage(fields, slots, |fields|)
  {
    RecordsApplied(fields, slots, |fields|);
  }

  /** The same for a nested message: as its records, it has the bytes of the whole value. */
  lemma NestedIsValue(fields: seq<Field>, slots: seq<Slot>, i: nat, v: Value)
    requires i < |fields| && fields[i].ltype.LMessage? && Fits(fields, slots, Known(i, v))
    ensures var r := Nested(i, AllRecords(fields[i].ltype.fields, v.slots));
            && SpelledOut(fields, r, Known(i, v)) && Fits(fields, slots, r)
            && EncodeRecord(fields, slots, r) == EncodeRecord(fields, slots, Known(i, v))
  {
    var sub := fields[i].ltype.fields;
    var r := Nested(i, AllRecords(sub, v.slots));
    AllRecordsApplied(sub, v.slots);
    RecordsApplied(sub, v.slots, |sub|);
    EncoderWritesNoUnknowns(sub, v.slots, |sub|);
    SameInterspersed(sub, AllRecords(sub, v.slots));
    hide RecordsOf, FitAll, ApplyAll, SeenByAll, EncodeAll, EncodeMessage, Interspersed, WellFormed, Finish, HasRoom, Defaults;
  }

  lemma {:induction false} EncoderWritesNoUnknowns(fields: seq<Field>, slots: seq<Slot>, n: nat)
    requires WellFormed(fields, slots) && n <= |fields|
    ensures forall i :: 0 <= i < |RecordsOf(fields, slots, n)| ==> RecordsOf(fields, slots, n)[i].Known? || RecordsOf(fields, slots, n)[i].Packed?
  {
    hide WellFormedSlot, IsZero;
    if n > 0 {
      EncoderWritesNoUnknowns(fields, slots, n - 1);
    }
  }

  lemma {:induction false} SameInterspersed(fields: seq<Field>, rs: seq<Record>)
    requires forall i :: 0 <= i < |rs| ==> rs[i].Known? || rs[i].Packed?
    ensures Interspersed(fields, rs, rs)
  {
    if rs != [] {
      SameInterspersed(fields, rs[1..]);
    }
  }

  // ----- any bytes -----

  // What fits the memory of a field, whatever it says.
  ghost predicate InBounds(lt: LType, v: Value)
    decreases lt, 1
  {
    match lt
    case LBytes(max) => v.Blob? && |v.b| <= max
    case LString(max) => v.Blob? && (|v.b| < max || v.b == [])
    case LMessage(fields) => v.Message? && SlotsInBounds(fields, v.slots)
    case LBool => v == Int(0) || v == Int(1)
    case LVarint(w) => v.Int? && -Modulus(w) <= 2 * v.i < Modulus(w)
    case LUVarint(w) => v.Int? && 0 <= v.i < Modulus(w)
    case LSVarint(w) => v.Int? && -Modulus(w) <= 2 * v.i < Modulus(w)
    case LFixed32 => v.Int? && 0 <= v.i < Modulus(W32)
    case LFixed64 => v.Int? && 0 <= v.i < Modulus(W64)
  }

  ghost predicate SlotInBounds(f: Field, s: Slot)
    decreases f, 2
  {
    match f.htype
    case Repeated(max) => s.Many? && |s.items| <= max && forall i :: 0 <= i < |s.items| ==> InBounds(f.ltype, s.items[i])
    case _ => s.One? && InBounds(f.ltype, s.v)
  }

  ghost predicate SlotsInBounds(fields: seq<Field>, slots: seq<Slot>)
    decreases fields, 0
  {
    |slots| == |fields| && forall i :: 0 <= i < |fields| ==> SlotInBounds(fields[i], slots[i])
  }

  lemma {:induction false} DefaultInBounds(lt: LType)
    ensures InBounds(lt, Default(lt))
    decreases lt, 1
  {
    if lt.LMessage? {
      DefaultsInBounds(lt.fields);
    }
  }

  lemma {:induction false} DefaultsInBounds(fields: seq<Field>)
    ensures SlotsInBounds(fields, Defaults(fields))
    decreases fields, 0
  {
    forall i | 0 <= i < |fields| ensures SlotInBounds(fields[i], Defaults(fields)[i]) {
      DefaultSlotInBounds(fields[i]);
    }
  }

  lemma {:induction false} DefaultSlotInBounds(f: Field)
    ensures SlotInBounds(f, DefaultSlot(f))
    decreases f, 2
  {
    DefaultInBounds(f.ltype);
  }

  // The value stands in front of the rest, with its length before it if it has one.
  ghost predicate Stands(lt: LType, input: Bytes, v: Value, rest: Bytes) {
    && (lt.LBytes? || lt.LString? ==> v.Blob? && TakeVar32(input) == Some((|v.b|, v.b + rest)))
    && (lt.LFixed32? ==> v.Int? && 0 <= v.i < Modulus(W32) && input == Fixed32(v.i) + rest)
    && (lt.LMessage? ==> exists sub: Bytes :: TakeVar32(input) == Some((|sub|, sub + rest)))
  }

  lemma ScalarInBounds(lt: LType, input: Bytes)
    requires lt.Packable() && DecodeScalar(lt, input).Some?
    ensures InBounds(lt, DecodeScalar(lt, input).value.0) && Stands(lt, input, DecodeScalar(lt, input).value.0, DecodeScalar(lt, input).value.1)
  {
    hide TakeVar32, TakeVarint64, DecodeFixed32, DecodeFixed64, Fixed32;
    if lt.LFixed32? {
      FixedOfDecoded(input[..4]);
    }
  }

  lemma BlobInBounds(room: int, input: Bytes)
    requires DecodeBlob(room, input).Some?
    ensures var (v, rest) := DecodeBlob(room, input).value;
            v.Blob? && |v.b| <= room && TakeVar32(input) == Some((|v.b|, v.b + rest))
  {
    hide TakeVar32;
    var (n, rest) := TakeVar32(input).value;
    assert rest == rest[..n] + rest[n..];
  }

  lemma SubStands(input: Bytes)
    requires TakeSub(input).Some?
    ensures var (sub, rest) := TakeSub(input).value; TakeVar32(input) == Some((|sub|, sub + rest))
  {
    hide TakeVar32;
    var (n, rest) := TakeVar32(input).value;
    assert rest == rest[..n] + rest[n..];
  }

  lemma {:induction false} PackedInBounds(lt: LType, input: Bytes, items: seq<Value>, max: nat)
    requires lt.Packable() && |items| <= max && forall i :: 0 <= i < |items| ==> InBounds(lt, items[i])
    ensures var r := DecodePacked(lt, input, items, max);
            r.Some? ==> items <= r.value && |r.value| <= max && forall i :: 0 <= i < |r.value| ==> InBounds(lt, r.value[i])
    decreases |input|
  {
    hide DecodeScalar, InBounds;
    if input != [] && |items| < max && DecodeScalar(lt, input).Some? {
      ScalarInBounds(lt, input);
      PackedInBounds(lt, DecodeScalar(lt, input).value.1, items + [DecodeScalar(lt, input).value.0], max);
    }
  }

  lemma {:induction false} ValueInBounds(lt: LType, input: Bytes, current: Value)
    requires InBounds(lt, current) && DecodeValue(lt, input, current).Some?
    ensures InBounds(lt, DecodeValue(lt, input, current).value.0)
    ensures Stands(lt, input, DecodeValue(lt, input, current).value.0, DecodeValue(lt, input, current).value.1)
    decreases lt, 1
  {
    hide DecodeScalar, DecodeBlob, DecodeLoop, TakeVar32, TakeSub;
    if lt.Packable() {
      ScalarInBounds(lt, input);
    } else if lt.LBytes? {
      BlobInBounds(lt.max, input);
    } else if lt.LString? {
      BlobInBounds(lt.max - 1, input);
    } else {
      SubStands(input);
      LoopInBounds(lt.fields, TakeSub(input).value.0, current.slots, {});
    }
  }

  lemma {:induction false} FieldInBounds(f: Field, wire: nat, input: Bytes, s: Slot)
    requires SlotInBounds(f, s) && DecodeField(f, wire, input, s).Some?
    ensures SlotInBounds(f, DecodeField(f, wire, input, s).value.0)
    decreases f, 2
  {
    hide DecodeValue, DecodePacked, TakeSub, InBounds;
    if f.htype.Repeated? {
      if wire == STRING && f.ltype.Packable() {
        PackedInBounds(f.ltype, TakeSub(input).value.0, s.items, f.htype.max);
      } else {
        DefaultInBounds(f.ltype);
        ValueInBounds(f.ltype, input, Default(f.ltype));
      }
    } else {
      ValueInBounds(f.ltype, input, s.v);
    }
  }

  /** Whatever the bytes, what is decoded stays within the memory of its fields: strings and arrays
      within their room, numbers within their widths, at every depth. */
  lemma {:induction false} LoopInBounds(fields: seq<Field>, input: Bytes, slots: seq<Slot>, seen: set<nat>)
    requires SlotsInBounds(fields, slots)
    ensures var r := DecodeLoop(fields, input, slots, seen); r.Some? ==> SlotsInBounds(fields, r.value)
    decreases fields, 0, |input|
  {
    hide TakeVar32, FindField, SkipField, DecodeField, SlotInBounds;
    if input != [] && TakeVar32(input).Some? {
      var (key, body) := TakeVar32(input).value;
      if key != 0 {
        if FindsTerminator(fields, key / 8) {
          if TakeVar32(body).Some? {
            LoopInBounds(fields, TakeVar32(body).value.1, slots, seen);
          }
        } else if FindField(fields, key / 8) == None {
          if SkipField(key % 8, body).Some? {
            LoopInBounds(fields, SkipField(key % 8, body).value, slots, seen);
          }
        } else {
          var i := FindField(fields, key / 8).value;
          var d := DecodeField(fields[i], key % 8, body, slots[i]);
          if d.Some? {
            FieldInBounds(fields[i], key % 8, body, slots[i]);
            LoopInBounds(fields, d.value.1, slots[i := d.value.0], seen + {i});
          }
        }
      }
    }
  }

  lemma DecodedInBounds(fields: seq<Field>, input: Bytes)
    ensures Decode(fields, input).Some? ==> SlotsInBounds(fields, Decode(fields, input).value)
  {
    hide DecodeLoop, SlotsInBounds;
    DefaultsInBounds(fields);
    LoopInBounds(fields, input, Defaults(fields), {});
  }
}
