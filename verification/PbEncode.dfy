/** The encoder: every nested length is found by a sizing pass before the bytes are written. */
module PbEncode {
  import opened DbFormat
  import opened Coding
  import opened PbFormat

  // Where a stream's callback puts bytes.
  class Sink {
    var bytes: Bytes

    constructor ()
      ensures bytes == []
    {
      bytes := [];
    }
  }

  // What emitting bytes does to a stream: a sizing stream counts them, and a writing stream takes
  // all of them if they fit, and fails otherwise.
  ghost predicate Emits(sizing: bool, maxSize: nat, written: nat, out: Bytes, written': nat, out': Bytes, ok: bool, bytes: Bytes) {
    if sizing then ok && written' == written + |bytes| && out' == out
    else
      && (ok <==> written + |bytes| <= maxSize)
      && (ok ==> written' == written + |bytes| && out' == out + bytes)
  }

  lemma EmitsNothing(sizing: bool, maxSize: nat, w: nat, out: Bytes)
    requires !sizing ==> w <= maxSize
    ensures Emits(sizing, maxSize, w, out, w, out, true, [])
  {
    assert out + [] == out;
  }

  lemma EmitsBoth(sizing: bool, maxSize: nat, w0: nat, o0: Bytes, w1: nat, o1: Bytes, w2: nat, o2: Bytes, ok: bool, a: Bytes, b: Bytes)
    requires Emits(sizing, maxSize, w0, o0, w1, o1, true, a) && Emits(sizing, maxSize, w1, o1, w2, o2, ok, b)
    ensures Emits(sizing, maxSize, w0, o0, w2, o2, ok, a + b)
  {
    assert o0 + a + b == o0 + (a + b);
  }

  lemma EmitsFails(sizing: bool, maxSize: nat, w0: nat, o0: Bytes, w1: nat, o1: Bytes, w2: nat, o2: Bytes, a: Bytes, b: Bytes)
    requires Emits(sizing, maxSize, w0, o0, w1, o1, false, a)
    ensures Emits(sizing, maxSize, w0, o0, w2, o2, false, a + b)
  {
  }

  class OStream {
    // No sink: the stream only counts.
    const sink: Sink?
    const maxSize: nat
    var written: nat

    ghost function Out(): Bytes
      reads this, sink
    {
      if sink == null then [] else sink.bytes
    }

    ghost predicate Valid()
      reads this
    {
      sink != null ==> written <= maxSize
    }

    constructor (sink: Sink?, maxSize: nat)
      ensures Valid() && this.sink == sink && this.maxSize == maxSize && written == 0
    {
      this.sink, this.maxSize, written := sink, maxSize, 0;
    }

    method Write(buf: Bytes) returns (ok: bool)
      requires Valid()
      modifies this, sink
      ensures Valid() && Emits(sink == null, maxSize, old(written), old(Out()), written, Out(), ok, buf)
    {
      if |buf| > 0 && sink != null {
        if written + |buf| > maxSize {
          return false;
        }
        sink.bytes := sink.bytes + buf;
      }
      written := written + |buf|;
      ok := true;
    }

    // Writing from no buffer: only the count matters.
    method Count(size: nat, ghost bytes: Bytes) returns (ok: bool)
      requires Valid() && sink == null && size == |bytes|
      modifies this
      ensures Valid() && Emits(true, maxSize, old(written), old(Out()), written, Out(), ok, bytes)
    {
      written := written + size;
      ok := true;
    }

    /** pb_encode_varint: seven bits at a time, the top bit of the last byte cleared. */
    method EncodeVarint(value: nat) returns (ok: bool)
      requires Valid()
      modifies this, sink
      ensures Valid() && Emits(sink == null, maxSize, old(written), old(Out()), written, Out(), ok, Varint(value))
    {
      if value <= 0x7f {
        ok := Write([value]);
        return;
      }
      var buffer: Bytes := [];
      var v := value;
      while v >= 128
        invariant buffer + Varint(v) == Varint(value) && unchanged(this)
      {
        assert buffer + ([128 + v % 128] + Varint(v / 128)) == buffer + [128 + v % 128] + Varint(v / 128);
        buffer := buffer + [128 + v % 128];
        v := v / 128;
      }
      buffer := buffer + [v];
      ok := Write(buffer);
    }

    method EncodeTag(wire: nat, tag: nat) returns (ok: bool)
      requires Valid()
      modifies this, sink
      ensures Valid() && Emits(sink == null, maxSize, old(written), old(Out()), written, Out(), ok, Tag(wire, tag))
    {
      ok := EncodeVarint(tag * 8 + wire);
    }

    method EncodeString(buffer: Bytes) returns (ok: bool)
      requires Valid()
      modifies this, sink
      ensures Valid() && Emits(sink == null, maxSize, old(written), old(Out()), written, Out(), ok, Prefixed(buffer))
    {
      hide Emits, Varint;
      ghost var w, o := written, Out();
      ok := EncodeVarint(|buffer|);
      if !ok {
        EmitsFails(sink == null, maxSize, w, o, written, Out(), written, Out(), Varint(|buffer|), buffer);
        return;
      }
      ghost var w1, o1 := written, Out();
      ok := Write(buffer);
      EmitsBoth(sink == null, maxSize, w, o, w1, o1, written, Out(), ok, Varint(|buffer|), buffer);
    }

    method EncodeScalarField(lt: LType, i: int) returns (ok: bool)
      requires Valid() && lt.Packable() && WellTyped(lt, Int(i))
      modifies this, sink
      ensures Valid() && Emits(sink == null, maxSize, old(written), old(Out()), written, Out(), ok, EncodeScalar(lt, i))
    {
      hide Emits, Varint, Fixed32, Fixed64;
      match lt {
        case LVarint(_) => ok := EncodeVarint(TwosComplement(i));
        case LSVarint(_) => ok := EncodeVarint(ZigZag(i));
        case LFixed32 => ok := Write(Fixed32(i));
        case LFixed64 => ok := Write(Fixed64(i));
        case LBool => ok := EncodeVarint(i);
        case LUVarint(_) => ok := EncodeVarint(i);
      }
    }
  }

  // ----- fields and messages -----

  method EncodeValueTo(stream: OStream, lt: LType, v: Value) returns (ok: bool)
    requires stream.Valid() && WellTyped(lt, v)
    modifies stream, stream.sink
    ensures stream.Valid()
    ensures Emits(stream.sink == null, stream.maxSize, old(stream.written), old(stream.Out()), stream.written, stream.Out(), ok, EncodeValue(lt, v))
    decreases lt, 1
  {
    hide Emits, EncodeMessage, EncodeScalar, Prefixed;
    if lt.LMessage? {
      ok := EncodeSubmessage(stream, lt.fields, v.slots);
    } else if lt.LBytes? || lt.LString? {
      ok := stream.EncodeString(v.b);
    } else {
      ok := stream.EncodeScalarField(lt, v.i);
    }
  }

  /** The length comes from a first pass that writes nothing.  The second pass writes into a
      stream of exactly that size, so it can neither overflow nor fall short. */
  method EncodeSubmessage(stream: OStream, fields: seq<Field>, slots: seq<Slot>) returns (ok: bool)
    requires stream.Valid() && WellFormed(fields, slots)
    modifies stream, stream.sink
    ensures stream.Valid()
    ensures Emits(stream.sink == null, stream.maxSize, old(stream.written), old(stream.Out()), stream.written, stream.Out(), ok,
                  Prefixed(EncodeMessage(fields, slots, |fields|)))
    decreases fields, 1
  {
    hide EncodeMessage, Varint;
    ghost var bytes := EncodeMessage(fields, slots, |fields|);
    var sizing := new OStream(null, 0);
    var sized := PbEncode(sizing, fields, slots);
    var size := sizing.written;
    assert sized && size == |bytes|;
    ghost var w, o := stream.written, stream.Out();
    ok := stream.EncodeVarint(size);
    if !ok {
      EmitsFails(stream.sink == null, stream.maxSize, w, o, stream.written, stream.Out(), stream.written, stream.Out(), Varint(size), bytes);
      return;
    }
    ghost var w1, o1 := stream.written, stream.Out();
    if stream.sink == null {
      ok := stream.Count(size, bytes);
      EmitsBoth(true, stream.maxSize, w, o, w1, o1, stream.written, stream.Out(), ok, Varint(size), bytes);
      return;
    }
    if stream.written + size > stream.maxSize {
      return false;
    }
    var substream := new OStream(stream.sink, size);
    ok := PbEncode(substream, fields, slots);
    stream.written := stream.written + substream.written;
    if substream.written != size {
      assert false;
    }
    EmitsBoth(false, stream.maxSize, w, o, w1, o1, stream.written, stream.Out(), ok, Varint(size), bytes);
  }

  // The tag of a field and its value.
  method EncodeTagged(stream: OStream, f: Field, v: Value) returns (ok: bool)
    requires stream.Valid() && WellTyped(f.ltype, v)
    modifies stream, stream.sink
    ensures stream.Valid()
    ensures Emits(stream.sink == null, stream.maxSize, old(stream.written), old(stream.Out()), stream.written, stream.Out(), ok,
                  Tag(WireType(f.ltype), f.tag) + EncodeValue(f.ltype, v))
    decreases f, 1
  {
    hide Emits, EncodeValue, Tag;
    ghost var w, o := stream.written, stream.Out();
    ghost var a, b := Tag(WireType(f.ltype), f.tag), EncodeValue(f.ltype, v);
    ok := stream.EncodeTag(WireType(f.ltype), f.tag);
    if !ok {
      EmitsFails(stream.sink == null, stream.maxSize, w, o, stream.written, stream.Out(), stream.written, stream.Out(), a, b);
      return;
    }
    ghost var w1, o1 := stream.written, stream.Out();
    ok := EncodeValueTo(stream, f.ltype, v);
    EmitsBoth(stream.sink == null, stream.maxSize, w, o, w1, o1, stream.written, stream.Out(), ok, a, b);
  }

  // The elements of a packed array, one after the other.
  method EncodeElements(stream: OStream, lt: LType, items: seq<Value>) returns (ok: bool)
    requires stream.Valid() && lt.Packable() && forall i :: 0 <= i < |items| ==> WellTyped(lt, items[i])
    modifies stream, stream.sink
    ensures stream.Valid()
    ensures Emits(stream.sink == null, stream.maxSize, old(stream.written), old(stream.Out()), stream.written, stream.Out(), ok, EncodePacked(lt, items))
    decreases lt, 2
  {
    hide Emits, EncodeValue, WellTyped;
    ghost var w, o := stream.written, stream.Out();
    EmitsNothing(stream.sink == null, stream.maxSize, w, o);
    assert items[..0] == [];
    for i := 0 to |items|
      invariant stream.Valid()
      invariant Emits(stream.sink == null, stream.maxSize, w, o, stream.written, stream.Out(), true, EncodePacked(lt, items[..i]))
    {
      assert items[..i + 1][..i] == items[..i];
      ghost var a, b, rest := EncodePacked(lt, items[..i]), EncodeValue(lt, items[i]), items[i + 1..];
      ghost var w1, o1 := stream.written, stream.Out();
      ok := EncodeValueTo(stream, lt, items[i]);
      EmitsBoth(stream.sink == null, stream.maxSize, w, o, w1, o1, stream.written, stream.Out(), ok, a, b);
      if !ok {
        PackedPrefix(lt, items, i + 1);
        FailsOnPrefix(stream.sink == null, stream.maxSize, w, o, stream.written, stream.Out(), EncodePacked(lt, items[..i + 1]), EncodePacked(lt, items));
        return;
      }
    }
    assert items[..|items|] == items;
    ok := true;
  }

  lemma FailsOnPrefix(sizing: bool, maxSize: nat, w: nat, o: Bytes, w': nat, o': Bytes, a: Bytes, b: Bytes)
    requires Emits(sizing, maxSize, w, o, w', o', false, a) && |a| <= |b|
    ensures Emits(sizing, maxSize, w, o, w', o', false, b)
  {
  }

  lemma {:induction false} PackedPrefix(lt: LType, items: seq<Value>, n: nat)
    requires n <= |items| && lt.Packable() && forall i :: 0 <= i < |items| ==> WellTyped(lt, items[i])
    ensures |EncodePacked(lt, items[..n])| <= |EncodePacked(lt, items)|
  {
    hide EncodeValue, WellTyped;
    if n < |items| {
      PackedPrefix(lt, items[..|items| - 1], n);
      assert items[..|items| - 1][..n] == items[..n];
    } else {
      assert items[..n] == items;
    }
  }

  lemma {:induction false} ItemsPrefix(f: Field, items: seq<Value>, n: nat)
    requires n <= |items| && forall i :: 0 <= i < |items| ==> WellTyped(f.ltype, items[i])
    ensures |EncodeItems(f, items[..n])| <= |EncodeItems(f, items)|
  {
    hide EncodeValue, WellTyped, Tag;
    if n < |items| {
      ItemsPrefix(f, items[..|items| - 1], n);
      assert items[..|items| - 1][..n] == items[..n];
    } else {
      assert items[..n] == items;
    }
  }

  // The size of a packed array: known for fixed-width elements, counted for others.
  method PackedSize(lt: LType, items: seq<Value>) returns (size: nat)
    requires lt.Packable() && forall i :: 0 <= i < |items| ==> WellTyped(lt, items[i])
    ensures size == |EncodePacked(lt, items)|
    decreases lt, 3
  {
    if lt.LFixed32? || lt.LFixed64? {
      FixedSize(lt, items);
      size := if lt.LFixed32? then 4 * |items| else 8 * |items|;
    } else {
      hide EncodePacked, WellTyped;
      var sizing := new OStream(null, 0);
      var ok := EncodeElements(sizing, lt, items);
      size := sizing.written;
    }
  }

  lemma {:induction false} FixedSize(lt: LType, items: seq<Value>)
    requires (lt.LFixed32? || lt.LFixed64?) && forall i :: 0 <= i < |items| ==> WellTyped(lt, items[i])
    ensures |EncodePacked(lt, items)| == (if lt.LFixed32? then 4 else 8) * |items|
  {
    if items != [] {
      FixedSize(lt, items[..|items| - 1]);
    }
  }

  method EncodeArray(stream: OStream, f: Field, items: seq<Value>) returns (ok: bool)
    requires stream.Valid() && f.htype.Repeated? && WellFormedSlot(f, Many(items))
    modifies stream, stream.sink
    ensures stream.Valid()
    ensures Emits(stream.sink == null, stream.maxSize, old(stream.written), old(stream.Out()), stream.written, stream.Out(), ok, EncodeSlot(f, Many(items)))
    decreases f, 4
  {
    hide Emits, EncodePacked, EncodeItems, EncodeValue, Tag, Varint, WellTyped;
    ghost var w, o := stream.written, stream.Out();
    EmitsNothing(stream.sink == null, stream.maxSize, w, o);
    if items == [] {
      return true;
    }
    if f.ltype.Packable() {
      ok := EncodePackedArray(stream, f, items);
    } else {
      assert items[..0] == [];
      NoItems(f);
      for i := 0 to |items|
        invariant stream.Valid()
        invariant Emits(stream.sink == null, stream.maxSize, w, o, stream.written, stream.Out(), true, EncodeItems(f, items[..i]))
      {
        ghost var w1, o1 := stream.written, stream.Out();
        ok := EncodeTagged(stream, f, items[i]);
        OneMoreItem(f, items, i);
        EmitsBoth(stream.sink == null, stream.maxSize, w, o, w1, o1, stream.written, stream.Out(), ok, EncodeItems(f, items[..i]),
                  Tag(WireType(f.ltype), f.tag) + EncodeValue(f.ltype, items[i]));
        if !ok {
          ItemsPrefix(f, items, i + 1);
          FailsOnPrefix(stream.sink == null, stream.maxSize, w, o, stream.written, stream.Out(), EncodeItems(f, items[..i + 1]), EncodeItems(f, items));
          return;
        }
      }
      assert items[..|items|] == items;
      ok := true;
    }
  }

  lemma NoItems(f: Field)
    ensures EncodeItems(f, []) == []
  {
  }

  lemma OneMoreItem(f: Field, items: seq<Value>, i: nat)
    requires i < |items| && forall i :: 0 <= i < |items| ==> WellTyped(f.ltype, items[i])
    ensures EncodeItems(f, items[..i + 1]) == EncodeItems(f, items[..i]) + (Tag(WireType(f.ltype), f.tag) + EncodeValue(f.ltype, items[i]))
  {
    hide EncodeValue, Tag, WellTyped;
    assert items[..i + 1][..i] == items[..i];
  }

  method EncodePackedArray(stream: OStream, f: Field, items: seq<Value>) returns (ok: bool)
    requires stream.Valid() && f.ltype.Packable() && forall i :: 0 <= i < |items| ==> WellTyped(f.ltype, items[i])
    modifies stream, stream.sink
    ensures stream.Valid()
    ensures Emits(stream.sink == null, stream.maxSize, old(stream.written), old(stream.Out()), stream.written, stream.Out(), ok,
                  Tag(STRING, f.tag) + Prefixed(EncodePacked(f.ltype, items)))
    decreases f, 3
  {
    hide Emits, EncodePacked, Tag, Varint, WellTyped;
    ghost var w, o := stream.written, stream.Out();
    ghost var a, b := Tag(STRING, f.tag), EncodePacked(f.ltype, items);
    ok := stream.EncodeTag(STRING, f.tag);
    if !ok {
      EmitsFails(stream.sink == null, stream.maxSize, w, o, stream.written, stream.Out(), stream.written, stream.Out(), a, Prefixed(b));
      return;
    }
    ghost var w1, o1 := stream.written, stream.Out();
    var size := PackedSize(f.ltype, items);
    ok := stream.EncodeVarint(size);
    if !ok {
      EmitsFails(stream.sink == null, stream.maxSize, w1, o1, stream.written, stream.Out(), stream.written, stream.Out(), Varint(size), b);
    } else {
      ghost var w2, o2 := stream.written, stream.Out();
      if stream.sink == null {
        ok := stream.Count(size, b);
      } else {
        ok := EncodeElements(stream, f.ltype, items);
      }
      EmitsBoth(stream.sink == null, stream.maxSize, w1, o1, w2, o2, stream.written, stream.Out(), ok, Varint(size), b);
    }
    EmitsBoth(stream.sink == null, stream.maxSize, w, o, w1, o1, stream.written, stream.Out(), ok, a, Prefixed(b));
  }

  method EncodeField(stream: OStream, f: Field, s: Slot) returns (ok: bool)
    requires stream.Valid() && WellFormedSlot(f, s)
    modifies stream, stream.sink
    ensures stream.Valid()
    ensures Emits(stream.sink == null, stream.maxSize, old(stream.written), old(stream.Out()), stream.written, stream.Out(), ok, EncodeSlot(f, s))
    decreases f, 5
  {
    hide Emits, EncodeItems, EncodePacked, EncodeValue, Tag;
    EmitsNothing(stream.sink == null, stream.maxSize, stream.written, stream.Out());
    match f.htype {
      case Required => ok := EncodeTagged(stream, f, s.v);
      case Optional =>
        ok := true;
        if s.has {
          ok := EncodeTagged(stream, f, s.v);
        }
      case Singular =>
        ok := true;
        var implicitHas := !IsZero(f.ltype, s.v);
        if implicitHas {
          ok := EncodeTagged(stream, f, s.v);
        }
      case Repeated(_) => ok := EncodeArray(stream, f, s.items);
    }
  }

  /** pb_encode: a sizing stream ends up with the number of bytes that a writing stream gets. */
  method PbEncode(stream: OStream, fields: seq<Field>, slots: seq<Slot>) returns (ok: bool)
    requires stream.Valid() && WellFormed(fields, slots)
    modifies stream, stream.sink
    ensures stream.Valid()
    ensures Emits(stream.sink == null, stream.maxSize, old(stream.written), old(stream.Out()), stream.written, stream.Out(), ok,
                  EncodeMessage(fields, slots, |fields|))
    decreases fields, 0
  {
    hide Emits, EncodeSlot;
    ghost var w, o := stream.written, stream.Out();
    EmitsNothing(stream.sink == null, stream.maxSize, w, o);
    for i := 0 to |fields|
      invariant stream.Valid()
      invariant Emits(stream.sink == null, stream.maxSize, w, o, stream.written, stream.Out(), true, EncodeMessage(fields, slots, i))
    {
      ghost var w1, o1 := stream.written, stream.Out();
      ok := EncodeField(stream, fields[i], slots[i]);
      EmitsBoth(stream.sink == null, stream.maxSize, w, o, w1, o1, stream.written, stream.Out(), ok,
                EncodeMessage(fields, slots, i), EncodeSlot(fields[i], slots[i]));
      if !ok {
        MessagePrefix(fields, slots, i + 1);
        FailsOnPrefix(stream.sink == null, stream.maxSize, w, o, stream.written, stream.Out(),
                      EncodeMessage(fields, slots, i + 1), EncodeMessage(fields, slots, |fields|));
        return;
      }
    }
    ok := true;
  }

  lemma {:induction false} MessagePrefix(fields: seq<Field>, slots: seq<Slot>, n: nat)
    requires WellFormed(fields, slots) && n <= |fields|
    ensures |EncodeMessage(fields, slots, n)| <= |EncodeMessage(fields, slots, |fields|)|
    decreases |fields| - n
  {
    hide EncodeSlot;
    if n < |fields| {
      MessagePrefix(fields, slots, n + 1);
    }
  }
}
