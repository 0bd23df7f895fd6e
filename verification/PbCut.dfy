/** Messages that end too early. */
module PbCut {
  import opened DbFormat
  import opened Coding
  import opened PbFormat
  import opened PbDecode
  import opened PbRoundTrip

  // ----- what is read does not depend on what follows it -----

  lemma {:induction false} MoreVar32Extends(input: Bytes, result: Word, bitpos: nat, weight: nat, more: Bytes)
    requires MoreVar32(input, result, bitpos, weight).Some?
    ensures var r := MoreVar32(input, result, bitpos, weight).value;
            MoreVar32(input + more, result, bitpos, weight) == Some((r.0, r.1 + more))
    decreases |input|
  {
    hide WithBits, NextPosition, NextWeight;
    assert (input + more)[1..] == input[1..] + more;
    var next := if bitpos >= 32 then result else WithBits(result, input[0] % 128, weight);
    if input[0] >= 128 {
      MoreVar32Extends(input[1..], next, NextPosition(bitpos), NextWeight(bitpos, weight), more);
    }
  }

  lemma Var32Extends(input: Bytes, more: Bytes)
    requires TakeVar32(input).Some?
    ensures var r := TakeVar32(input).value; TakeVar32(input + more) == Some((r.0, r.1 + more))
  {
    hide MoreVar32;
    assert (input + more)[1..] == input[1..] + more;
    if input[0] >= 128 {
      MoreVar32Extends(input[1..], input[0] - 128, 7, 128, more);
    }
  }

  lemma {:induction false} SkipVarintExtends(input: Bytes, more: Bytes)
    requires SkipVarint(input).Some?
    ensures SkipVarint(input + more) == Some(SkipVarint(input).value + more)
  {
    assert (input + more)[1..] == input[1..] + more;
    if input[0] >= 128 {
      SkipVarintExtends(input[1..], more);
    }
  }

  lemma SkipBytesExtends(input: Bytes, n: nat, more: Bytes)
    requires SkipBytes(input, n).Some?
    ensures SkipBytes(input + more, n) == Some(SkipBytes(input, n).value + more)
  {
    assert (input + more)[n..] == input[n..] + more;
  }

  lemma SkipExtends(wire: nat, input: Bytes, more: Bytes)
    requires SkipField(wire, input).Some?
    ensures SkipField(wire, input + more) == Some(SkipField(wire, input).value + more)
  {
    hide TakeVar32, SkipVarint, SkipBytes;
    if wire == VARINT {
      SkipVarintExtends(input, more);
    } else if wire == FIXED64 {
      SkipBytesExtends(input, 8, more);
    } else if wire == FIXED32 {
      SkipBytesExtends(input, 4, more);
    } else {
      Var32Extends(input, more);
      var r := TakeVar32(input).value;
      SkipBytesExtends(r.1, r.0, more);
    }
  }

  lemma SubExtends(input: Bytes, more: Bytes)
    requires TakeSub(input).Some?
    ensures var r := TakeSub(input).value; TakeSub(input + more) == Some((r.0, r.1 + more))
  {
    hide TakeVar32;
    Var32Extends(input, more);
    var (n, rest) := TakeVar32(input).value;
    assert (rest + more)[..n] == rest[..n] && (rest + more)[n..] == rest[n..] + more;
  }

  lemma BlobExtends(room: int, input: Bytes, more: Bytes)
    requires DecodeBlob(room, input).Some?
    ensures var r := DecodeBlob(room, input).value; DecodeBlob(room, input + more) == Some((r.0, r.1 + more))
  {
    hide TakeVar32;
    Var32Extends(input, more);
    var (n, rest) := TakeVar32(input).value;
    assert (rest + more)[..n] == rest[..n] && (rest + more)[n..] == rest[n..] + more;
  }

  lemma ScalarExtends(lt: LType, input: Bytes, more: Bytes)
    requires lt.Packable() && DecodeScalar(lt, input).Some?
    ensures var r := DecodeScalar(lt, input).value; DecodeScalar(lt, input + more) == Some((r.0, r.1 + more))
  {
    hide TakeVar32, TakeVarint64, DecodeFixed32, DecodeFixed64, DecodeSigned, UnZigZag, Fitting;
    if lt.LBool? {
      Var32Extends(input, more);
    } else if lt.LFixed32? {
      assert (input + more)[..4] == input[..4] && (input + more)[4..] == input[4..] + more;
    } else if lt.LFixed64? {
      assert (input + more)[..8] == input[..8] && (input + more)[8..] == input[8..] + more;
    } else {
      Varint64Extends(input, more);
    }
  }

  lemma ValueExtends(lt: LType, input: Bytes, current: Value, more: Bytes)
    requires DecodeValue(lt, input, current).Some?
    ensures var r := DecodeValue(lt, input, current).value; DecodeValue(lt, input + more, current) == Some((r.0, r.1 + more))
  {
    hide DecodeScalar, DecodeBlob, TakeSub, DecodeLoop;
    if lt.Packable() {
      ScalarExtends(lt, input, more);
    } else if lt.LBytes? {
      BlobExtends(lt.max, input, more);
    } else if lt.LString? {
      BlobExtends(lt.max - 1, input, more);
    } else {
      SubExtends(input, more);
    }
  }

  /** A field that can be decoded is decoded the same whatever follows it. */
  lemma FieldExtends(f: Field, wire: nat, input: Bytes, s: Slot, more: Bytes)
    requires DecodeField(f, wire, input, s).Some?
    ensures var r := DecodeField(f, wire, input, s).value; DecodeField(f, wire, input + more, s) == Some((r.0, r.1 + more))
  {
    hide DecodeValue, DecodePacked, TakeSub, Default;
    if f.htype.Repeated? && wire == STRING && f.ltype.Packable() {
      SubExtends(input, more);
    } else {
      ValueExtends(f.ltype, input, if f.htype.Repeated? then Default(f.ltype) else s.v, more);
    }
  }

  // ----- a record that is cut -----

  // The key of a record, and that decoding what stands behind it uses all of it up.
  ghost predicate UsedUp(fields: seq<Field>, slots: seq<Slot>, wire: nat, tag: nat, body: Bytes)
    requires |slots| == |fields|
  {
    && wire < 8 && 0 < tag <= MAX_TAG
    && match FindField(fields, tag)
       case None => SkipField(wire, body) == Some([])
       case Some(i) => DecodeField(fields[i], wire, body, slots[i]).Some? ==> DecodeField(fields[i], wire, body, slots[i]).value.1 == []
  }

  lemma RecordUsedUp(fields: seq<Field>, slots: seq<Slot>, r: Record) returns (wire: nat, tag: nat, body: Bytes)
    requires GoodFields(fields) && Fits(fields, slots, r) && |EncodeRecord(fields, slots, r)| < 0x1_0000_0000
    ensures EncodeRecord(fields, slots, r) == Tag(wire, tag) + body && UsedUp(fields, slots, wire, tag, body)
  {
    hide Tag, EncodeValue, DecodeValue, EncodePacked, DecodePacked, TakeSub, Prefixed, WellTyped, Default, GoodType, Complete, SkipField;
    match r {
      case Known(i, v) =>
        var f := fields[i];
        wire, tag, body := WireType(f.ltype), f.tag, EncodeValue(f.ltype, v);
        var current := if f.htype.Repeated? then Default(f.ltype) else slots[i].v;
        FieldValueRoundTrip(f, v, current, []);
        FindsField(fields, i);
        assert body + [] == body;
      case Packed(i, items) =>
        var f := fields[i];
        var b := EncodePacked(f.ltype, items);
        wire, tag, body := STRING, f.tag, Prefixed(b);
        PrefixedLength(b);
        SubTaken(b, []);
        FindsField(fields, i);
        assert body + [] == body;
      case Nested(i, inner) =>
        var f := fields[i];
        var b := EncodeAll(f.ltype.fields, Defaults(f.ltype.fields), inner);
        wire, tag, body := STRING, f.tag, Prefixed(b);
        PrefixedLength(b);
        NestedDecodes(f, inner, []);
        FindsField(fields, i);
        assert body + [] == body;
      case Unknown(t, payload) =>
        wire, tag, body := payload.Wire(), t, payload.Encoded();
        PayloadSkipped(payload, []);
        assert body + [] == body;
    }
  }

  /** A record cut anywhere inside is an error, in the key, in the length or in what follows. */
  lemma CutRecordFails(fields: seq<Field>, slots: seq<Slot>, seen: set<nat>, r: Record, n: nat)
    requires GoodFields(fields) && Fits(fields, slots, r) && |EncodeRecord(fields, slots, r)| < 0x1_0000_0000
    requires 0 < n < |EncodeRecord(fields, slots, r)|
    ensures DecodeLoop(fields, EncodeRecord(fields, slots, r)[..n], slots, seen) == None
  {
    var all := EncodeRecord(fields, slots, r);
    var wire, tag, body := RecordUsedUp(fields, slots, r);
    hide GoodFields, Fits, EncodeRecord;
    TagTaken(wire, tag, body);
    var cut, tail := all[..n], all[n..];
    assert cut + tail == all;
    CutFails(fields, slots, seen, wire, tag, body, cut, tail);
  }

  lemma CutFails(fields: seq<Field>, slots: seq<Slot>, seen: set<nat>, wire: nat, tag: nat, body: Bytes, cut: Bytes, tail: Bytes)
    requires |slots| == |fields| && UsedUp(fields, slots, wire, tag, body) && cut != [] && tail != []
    requires TakeVar32(cut + tail) == Some((tag * 8 + wire, body))
    ensures DecodeLoop(fields, cut, slots, seen) == None
  {
    hide TakeVar32, FindField, SkipField, DecodeField, Finish;
    if TakeVar32(cut).Some? {
      Var32Extends(cut, tail);
      var rest := TakeVar32(cut).value.1;
      assert rest + tail == body && (tag * 8 + wire) / 8 == tag && (tag * 8 + wire) % 8 == wire;
      match FindField(fields, tag) {
        case None =>
          if SkipField(wire, rest).Some? {
            SkipExtends(wire, rest, tail);
          }
        case Some(i) =>
          if DecodeField(fields[i], wire, rest, slots[i]).Some? {
            FieldExtends(fields[i], wire, rest, slots[i], tail);
          }
      }
    }
  }

  // ----- a message that is cut -----

  // k records lie within the first m bytes, and no more.
  ghost predicate WholeRecords(fields: seq<Field>, slots: seq<Slot>, rs: seq<Record>, m: nat, k: nat) {
    && k <= |rs| && FitAll(fields, slots, rs[..k]) && |EncodeAll(fields, slots, rs[..k])| <= m
    && (k < |rs| ==> FitAll(fields, slots, rs[..k + 1]) && m < |EncodeAll(fields, slots, rs[..k + 1])|)
  }

  lemma NoneWhole(fields: seq<Field>, slots: seq<Slot>, rs: seq<Record>, m: nat)
    requires FitAll(fields, slots, rs) && rs != [] && m < |EncodeRecord(fields, slots, rs[0])|
    ensures WholeRecords(fields, slots, rs, m, 0) && EncodeAll(fields, slots, rs[..0]) == []
    ensures EncodeAll(fields, slots, rs)[..m] == EncodeRecord(fields, slots, rs[0])[..m]
  {
    hide Fits, Apply, EncodeRecord;
    assert rs[..1] == [rs[0]] && rs[..0] == [];
    OneRecord(fields, slots, rs[0]);
  }

  lemma OneRecord(fields: seq<Field>, slots: seq<Slot>, r: Record)
    requires Fits(fields, slots, r)
    ensures FitAll(fields, slots, [r]) && EncodeAll(fields, slots, [r]) == EncodeRecord(fields, slots, r)
  {
    hide Fits, Apply, EncodeRecord;
    assert [r][1..] == [] && EncodeAll(fields, Apply(fields, slots, r), []) == [];
  }

  lemma OneMoreWhole(fields: seq<Field>, slots: seq<Slot>, rs: seq<Record>, m: nat, k: nat)
    requires FitAll(fields, slots, rs) && rs != [] && m >= |EncodeRecord(fields, slots, rs[0])|
    requires WholeRecords(fields, Apply(fields, slots, rs[0]), rs[1..], m - |EncodeRecord(fields, slots, rs[0])|, k)
    ensures WholeRecords(fields, slots, rs, m, k + 1) && rs[..k + 1][0] == rs[0] && rs[..k + 1][1..] == rs[1..][..k]
    ensures EncodeAll(fields, slots, rs[..k + 1]) ==
            EncodeRecord(fields, slots, rs[0]) + EncodeAll(fields, Apply(fields, slots, rs[0]), rs[1..][..k])
  {
    hide Fits, Apply, EncodeRecord;
    assert rs[..k + 1][1..] == rs[1..][..k];
    if k + 1 < |rs| {
      assert rs[..k + 2][1..] == rs[1..][..k + 1];
    }
  }

  lemma {:induction false} CutLoop(fields: seq<Field>, slots: seq<Slot>, seen: set<nat>, rs: seq<Record>, m: nat) returns (k: nat)
    requires GoodFields(fields) && |slots| == |fields| && FitAll(fields, slots, rs) && m <= |EncodeAll(fields, slots, rs)| < 0x1_0000_0000
    ensures WholeRecords(fields, slots, rs, m, k)
    ensures DecodeLoop(fields, EncodeAll(fields, slots, rs)[..m], slots, seen) ==
            if m == |EncodeAll(fields, slots, rs[..k])| && NestedComplete(fields, rs[..k])
            then Finish(fields, ApplyAll(fields, slots, rs[..k]), seen + SeenByAll(rs[..k])) else None
    decreases rs
  {
    hide GoodFields, Fits, EncodeRecord, Apply, Finish, RecordComplete, SeenBy;
    assert seen + {} == seen;
    if rs == [] {
      k := 0;
      return;
    }
    var first, rest := EncodeRecord(fields, slots, rs[0]), EncodeAll(fields, Apply(fields, slots, rs[0]), rs[1..]);
    assert EncodeAll(fields, slots, rs) == first + rest;
    if m < |first| {
      k := 0;
      NoneWhole(fields, slots, rs, m);
      if m > 0 {
        CutRecordFails(fields, slots, seen, rs[0], m);
      }
    } else {
      var slots', seen' := Apply(fields, slots, rs[0]), seen + SeenBy(rs[0]);
      k := CutLoop(fields, slots', seen', rs[1..], m - |first|);
      OneMoreWhole(fields, slots, rs, m, k);
      assert (first + rest)[..m] == first + rest[..m - |first|];
      hide DecodeLoop, EncodeAll, FitAll, WholeRecords;
      RecordDecodes(fields, slots, seen, rs[0], rest[..m - |first|]);
      assert seen' + SeenByAll(rs[1..][..k]) == seen + (SeenBy(rs[0]) + SeenByAll(rs[1..][..k]));
      k := k + 1;
    }
  }

  /** A message of which only the first m bytes arrive, k records of it whole: it is accepted if and
      only if the cut falls between two records and the whole ones include what is required, and
      then it is the message of these. */
  lemma CutMessage(fields: seq<Field>, rs: seq<Record>, m: nat) returns (k: nat)
    requires GoodFields(fields) && FitAll(fields, Defaults(fields), rs)
    requires m <= |EncodeAll(fields, Defaults(fields), rs)| < 0x1_0000_0000
    ensures WholeRecords(fields, Defaults(fields), rs, m, k)
    ensures Decode(fields, EncodeAll(fields, Defaults(fields), rs)[..m]) ==
            if m == |EncodeAll(fields, Defaults(fields), rs[..k])| && RequiredThere(fields, rs[..k])
            then Some(ApplyAll(fields, Defaults(fields), rs[..k])) else None
  {
    hide GoodFields, FitAll, EncodeAll, DecodeLoop;
    k := CutLoop(fields, Defaults(fields), {}, rs, m);
    var whole := rs[..k];
    assert {} + SeenByAll(whole) == SeenByAll(whole);
    CompleteIff(fields, whole);
    FinishMeans(fields, ApplyAll(fields, Defaults(fields), whole), whole);
    hide WholeRecords, ApplyAll, RequiredThere, NestedComplete, SeenByAll, Finish;
  }
}
