/** Messages driven by field descriptors, and the bytes they are encoded to. */
module PbFormat {
  import opened DbFormat
  import opened Coding

  // ----- descriptors -----

  datatype Width = W8 | W16 | W32 | W64

  datatype LType =
    | LBool
    | LVarint(width: Width)
    | LUVarint(width: Width)
    | LSVarint(width: Width)
    | LFixed32
    | LFixed64
    | LBytes(max: nat)
    | LString(max: nat)
    | LMessage(fields: seq<Field>)
  {
    // The types whose arrays are packed.
    predicate Packable() {
      !LBytes? && !LString? && !LMessage?
    }
  }

  // Optional fields have a flag; a singular field counts as absent when it is zero; an array has
  // a counter and room for max items.
  datatype HType = Required | Optional | Singular | Repeated(max: nat)

  datatype Field = Field(tag: nat, htype: HType, ltype: LType)

  const MAX_TAG: nat := 0x1fff_ffff

  // ----- values -----

  datatype Value = Int(i: int) | Blob(b: Bytes) | Message(slots: seq<Slot>)

  // has is the flag of an optional field, and true for fields without a flag.
  datatype Slot = One(has: bool, v: Value) | Many(items: seq<Value>)

  function Modulus(w: Width): int {
    match w
    case W8 => 0x100
    case W16 => 0x1_0000
    case W32 => 0x1_0000_0000
    case W64 => 0x1_0000_0000_0000_0000
  }

  // A string ends before its first zero byte and leaves room for one.
  ghost predicate WellTyped(lt: LType, v: Value)
    decreases lt, 1
  {
    match lt
    case LBool => v == Int(0) || v == Int(1)
    case LVarint(w) => v.Int? && -Modulus(w) <= 2 * v.i < Modulus(w)
    case LUVarint(w) => v.Int? && 0 <= v.i < Modulus(w)
    case LSVarint(w) => v.Int? && -Modulus(w) <= 2 * v.i < Modulus(w)
    case LFixed32 => v.Int? && 0 <= v.i < Modulus(W32)
    case LFixed64 => v.Int? && 0 <= v.i < Modulus(W64)
    case LBytes(max) => v.Blob? && |v.b| <= max
    case LString(max) => v.Blob? && |v.b| < max && 0 !in v.b
    case LMessage(fields) => v.Message? && WellFormed(fields, v.slots)
  }

  // An absent optional field has its default value.
  ghost predicate WellFormedSlot(f: Field, s: Slot)
    decreases f, 2
  {
    match f.htype
    case Repeated(max) => s.Many? && |s.items| <= max && forall i :: 0 <= i < |s.items| ==> WellTyped(f.ltype, s.items[i])
    case Optional => s.One? && WellTyped(f.ltype, s.v) && (!s.has ==> s.v == Default(f.ltype))
    case _ => s.One? && s.has && WellTyped(f.ltype, s.v)
  }

  ghost predicate WellFormed(fields: seq<Field>, slots: seq<Slot>)
    decreases fields, 0
  {
    && |slots| == |fields|
    && (forall i :: 0 <= i < |fields| ==> WellFormedSlot(fields[i], slots[i]))
  }

  function Default(lt: LType): Value
    decreases lt, 1
  {
    match lt
    case LBytes(_) => Blob([])
    case LString(_) => Blob([])
    case LMessage(fields) => Message(Defaults(fields))
    case _ => Int(0)
  }

  function DefaultSlot(f: Field): Slot
    decreases f, 2
  {
    if f.htype.Repeated? then Many([]) else One(!f.htype.Optional?, Default(f.ltype))
  }

  function Defaults(fields: seq<Field>): (r: seq<Slot>)
    ensures |r| == |fields|
    decreases fields, 0
  {
    seq(|fields|, i requires 0 <= i < |fields| => DefaultSlot(fields[i]))
  }

  // Whether a singular field counts as absent.
  predicate IsZero(lt: LType, v: Value)
    decreases lt, 1
  {
    match lt
    case LBytes(_) => v.Blob? && v.b == []
    case LString(_) => v.Blob? && (v.b == [] || v.b[0] == 0)
    case LMessage(fields) => v.Message? && |v.slots| == |fields| && forall i :: 0 <= i < |fields| ==> SlotIsZero(fields[i], v.slots[i])
    case _ => v == Int(0)
  }

  predicate SlotIsZero(f: Field, s: Slot)
    decreases f, 2
  {
    match f.htype
    case Required => false
    case Repeated(_) => s.Many? && s.items == []
    case Optional => s.One? && !s.has
    case Singular => s.One? && IsZero(f.ltype, s.v)
  }

  /** A value that counts as absent is the default value. */
  lemma {:induction false} ZeroIsDefault(lt: LType, v: Value)
    requires WellTyped(lt, v) && IsZero(lt, v)
    ensures v == Default(lt)
    decreases lt
  {
    if lt.LMessage? {
      forall i | 0 <= i < |lt.fields| ensures v.slots[i] == Defaults(lt.fields)[i] {
        assert WellFormedSlot(lt.fields[i], v.slots[i]) && SlotIsZero(lt.fields[i], v.slots[i]);
        if lt.fields[i].htype.Singular? {
          ZeroIsDefault(lt.fields[i].ltype, v.slots[i].v);
        }
      }
    }
  }

  // ----- encoding -----

  const VARINT: nat := 0
  const FIXED64: nat := 1
  const STRING: nat := 2
  const FIXED32: nat := 5

  function WireType(lt: LType): nat {
    match lt
    case LFixed32 => FIXED32
    case LFixed64 => FIXED64
    case LBytes(_) => STRING
    case LString(_) => STRING
    case LMessage(_) => STRING
    case _ => VARINT
  }

  function Tag(wire: nat, tag: nat): Bytes {
    Varint(tag * 8 + wire)
  }

  // Negative numbers are encoded as their 64-bit two's complement.
  function TwosComplement(i: int): nat
    requires -0x8000_0000_0000_0000 <= i
  {
    if i < 0 then i + 0x1_0000_0000_0000_0000 else i
  }

  function ZigZag(i: int): nat {
    if i < 0 then -2 * i - 1 else 2 * i
  }

  function EncodeScalar(lt: LType, i: int): Bytes
    requires WellTyped(lt, Int(i)) && lt.Packable()
  {
    match lt
    case LVarint(w) => Varint(TwosComplement(i))
    case LSVarint(w) => Varint(ZigZag(i))
    case LFixed32 => Fixed32(i)
    case LFixed64 => Fixed64(i)
    case LBool => Varint(i)
    case LUVarint(_) => Varint(i)
    case _ => []
  }

  function Prefixed(b: Bytes): Bytes {
    Varint(|b|) + b
  }

  function EncodeValue(lt: LType, v: Value): Bytes
    requires WellTyped(lt, v)
    decreases lt, 1
  {
    if lt.LMessage? then Prefixed(EncodeMessage(lt.fields, v.slots, |lt.fields|))
    else if lt.LBytes? || lt.LString? then Prefixed(v.b)
    else EncodeScalar(lt, v.i)
  }

  // The elements of a packed array, without the tag and the length.
  function EncodePacked(lt: LType, items: seq<Value>): Bytes
    requires lt.Packable() && forall i :: 0 <= i < |items| ==> WellTyped(lt, items[i])
    decreases lt, 2, items
  {
    if items == [] then []
    else EncodePacked(lt, items[..|items| - 1]) + EncodeValue(lt, items[|items| - 1])
  }

  function EncodeItems(f: Field, items: seq<Value>): Bytes
    requires forall i :: 0 <= i < |items| ==> WellTyped(f.ltype, items[i])
    decreases f, 2, items
  {
    if items == [] then []
    else EncodeItems(f, items[..|items| - 1]) + Tag(WireType(f.ltype), f.tag) + EncodeValue(f.ltype, items[|items| - 1])
  }

  function EncodeSlot(f: Field, s: Slot): Bytes
    requires WellFormedSlot(f, s)
    decreases f, 3
  {
    match f.htype
    case Repeated(_) =>
      if s.items == [] then []
      else if f.ltype.Packable() then Tag(STRING, f.tag) + Prefixed(EncodePacked(f.ltype, s.items))
      else EncodeItems(f, s.items)
    case Optional => if s.has then Tag(WireType(f.ltype), f.tag) + EncodeValue(f.ltype, s.v) else []
    case Singular => if IsZero(f.ltype, s.v) then [] else Tag(WireType(f.ltype), f.tag) + EncodeValue(f.ltype, s.v)
    case Required => Tag(WireType(f.ltype), f.tag) + EncodeValue(f.ltype, s.v)
  }

  // The first n fields of a message.
  function EncodeMessage(fields: seq<Field>, slots: seq<Slot>, n: nat): Bytes
    requires WellFormed(fields, slots) && n <= |fields|
    decreases fields, 0, n
  {
    if n == 0 then [] else EncodeMessage(fields, slots, n - 1) + EncodeSlot(fields[n - 1], slots[n - 1])
  }
}
