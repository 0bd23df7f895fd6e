/** The strided checksum: sixteen bytes at a time give what one byte at a time gives. */
module Crc32c {
  // ----- words, and the few operations on them -----

  type Bits = bv32

  function Xor(a: Bits, b: Bits): Bits {
    a ^ b
  }

  function Low(x: Bits): Bits {
    x & 0xff
  }

  function High(x: Bits): Bits {
    x >> 8
  }

  function Up(x: Bits): Bits {
    x << 8
  }

  // A byte in the low bits.
  predicate IsByte(x: Bits) {
    x & 0xffff_ff00 == 0
  }

  // The high byte is clear.
  predicate HasRoom(x: Bits) {
    x & 0xff00_0000 == 0
  }

  lemma XorGroups(a: Bits, b: Bits, c: Bits)
    ensures Xor(a, Xor(b, c)) == Xor(Xor(a, b), c)
  {
  }

  lemma XorSwap(a: Bits, b: Bits, c: Bits, d: Bits)
    ensures Xor(Xor(a, b), Xor(c, d)) == Xor(Xor(a, c), Xor(b, d))
  {
    hide Xor;
    XorGroups(a, b, Xor(c, d));
    XorGroups(b, c, d);
    XorLaws(b, c);
    XorGroups(c, b, d);
    XorGroups(a, c, Xor(b, d));
  }

  lemma XorLaws(a: Bits, b: Bits)
    ensures Xor(a, b) == Xor(b, a) && Xor(Xor(a, b), b) == a && Xor(0, a) == a
  {
  }

  lemma XorParts(x: Bits, y: Bits)
    ensures Low(Xor(x, y)) == Xor(Low(x), Low(y)) && High(Xor(x, y)) == Xor(High(x), High(y))
  {
  }

  lemma ByteParts(b: Bits)
    requires IsByte(b)
    ensures Low(b) == b && High(b) == 0 && HasRoom(b)
  {
  }

  lemma UpParts(y: Bits)
    requires HasRoom(y)
    ensures Low(Up(y)) == 0 && High(Up(y)) == y
  {
  }

  lemma RoomForMore(c: Bits, d: Bits)
    requires IsByte(c) && (IsByte(d) || exists e, f :: IsByte(e) && IsByte(f) && d == Xor(e, Up(f)))
    ensures HasRoom(Xor(c, Up(d)))
  {
  }

  // ----- one byte at a time -----

  // A table of the source, as a function of the index byte.
  type ByteTable = Bits -> Bits

  datatype Tables = Tables(byteExtension: ByteTable, stride0: ByteTable, stride1: ByteTable, stride2: ByteTable, stride3: ByteTable)

  function AddByte(t: Tables, l: Bits, b: Bits): Bits {
    Xor(t.byteExtension(Xor(Low(l), b)), High(l))
  }

  function AddBytes(t: Tables, l: Bits, data: seq<Bits>): Bits {
    if data == [] then l else AddByte(t, AddBytes(t, l, data[..|data| - 1]), data[|data| - 1])
  }

  // Extends a checksum by a zero byte.
  function Shift(t: Tables, x: Bits): Bits {
    Xor(t.byteExtension(Low(x)), High(x))
  }

  function Shift4(t: Tables, x: Bits): Bits {
    Shift(t, Shift(t, Shift(t, Shift(t, x))))
  }

  function Stride(t: Tables, x: Bits): Bits {
    Xor(Xor(Xor(t.stride3(Low(x)), t.stride2(Low(High(x)))), t.stride1(Low(High(High(x))))), t.stride0(High(High(High(x)))))
  }

  ghost predicate Linear(f: Bits -> Bits) {
    forall a, b {:trigger f(Xor(a, b))} :: f(Xor(a, b)) == Xor(f(a), f(b))
  }

  // What the tables have to satisfy: the byte table is linear, and the stride tables extend by
  // sixteen zero bytes.
  ghost predicate GoodTables(t: Tables) {
    && Linear(t.byteExtension)
    && forall x :: Stride(t, x) == Shift4(t, Shift4(t, Shift4(t, Shift4(t, x))))
  }

  lemma AddByteIsShift(t: Tables, l: Bits, b: Bits)
    requires IsByte(b)
    ensures AddByte(t, l, b) == Shift(t, Xor(l, b))
  {
    XorParts(l, b);
    ByteParts(b);
    XorLaws(0, High(l));
    XorLaws(High(l), 0);
    hide Xor, Low, High, IsByte;
  }

  // Bits above the low byte pass through one step.
  lemma HighBitsPass(t: Tables, x: Bits, y: Bits)
    requires HasRoom(y)
    ensures Shift(t, Xor(x, Up(y))) == Xor(Shift(t, x), y)
  {
    XorParts(x, Up(y));
    UpParts(y);
    XorLaws(0, Low(x));
    XorLaws(Low(x), 0);
    XorGroups(t.byteExtension(Low(x)), High(x), y);
    hide Xor, Low, High, Up, HasRoom;
  }

  lemma ShiftLinear(t: Tables, x: Bits, y: Bits)
    requires Linear(t.byteExtension)
    ensures Shift(t, Xor(x, y)) == Xor(Shift(t, x), Shift(t, y))
  {
    hide Xor, Low, High;
    XorParts(x, y);
    XorSwap(t.byteExtension(Low(x)), t.byteExtension(Low(y)), High(x), High(y));
  }

  lemma Shift4Linear(t: Tables, x: Bits, y: Bits)
    requires Linear(t.byteExtension)
    ensures Shift4(t, Xor(x, y)) == Xor(Shift4(t, x), Shift4(t, y))
  {
    hide Shift, Xor, Linear;
    var a, b := Shift(t, x), Shift(t, y);
    var c, d := Shift(t, a), Shift(t, b);
    ShiftLinear(t, x, y);
    ShiftLinear(t, a, b);
    ShiftLinear(t, c, d);
    ShiftLinear(t, Shift(t, c), Shift(t, d));
  }

  // ----- four bytes at a time -----

  predicate IsData(data: seq<Bits>) {
    forall i :: 0 <= i < |data| ==> IsByte(data[i])
  }

  // The little-endian word at p.
  function ReadUint32LE(data: seq<Bits>, p: nat): Bits
    requires p + 4 <= |data|
  {
    Xor(data[p], Up(Xor(data[p + 1], Up(Xor(data[p + 2], Up(data[p + 3]))))))
  }

  lemma AddBytesStep(t: Tables, l: Bits, data: seq<Bits>, p: nat)
    requires p < |data|
    ensures AddBytes(t, l, data[..p + 1]) == AddByte(t, AddBytes(t, l, data[..p]), data[p])
  {
    assert data[..p + 1][..p] == data[..p];
  }

  /** Four bytes added one by one are the word added at once. */
  lemma WordIsFourBytes(t: Tables, l: Bits, data: seq<Bits>, p: nat)
    requires p + 4 <= |data| && IsData(data)
    ensures AddBytes(t, l, data[..p + 4]) == Shift4(t, Xor(AddBytes(t, l, data[..p]), ReadUint32LE(data, p)))
  {
    AddBytesStep(t, l, data, p);
    AddBytesStep(t, l, data, p + 1);
    AddBytesStep(t, l, data, p + 2);
    AddBytesStep(t, l, data, p + 3);
    FourBytes(t, AddBytes(t, l, data[..p]), data[p], data[p + 1], data[p + 2], data[p + 3]);
    hide Shift4, AddByte, AddBytes, Xor, Up;
  }

  lemma FourBytes(t: Tables, l: Bits, a: Bits, b: Bits, c: Bits, d: Bits)
    requires IsByte(a) && IsByte(b) && IsByte(c) && IsByte(d)
    ensures AddByte(t, AddByte(t, AddByte(t, AddByte(t, l, a), b), c), d) ==
            Shift4(t, Xor(l, Xor(a, Up(Xor(b, Up(Xor(c, Up(d))))))))
  {
    hide Shift, AddByte, Xor, Up, IsByte, HasRoom;
    ByteParts(d);
    RoomForMore(c, d);
    RoomForMore(b, Xor(c, Up(d)));
    var cd := Xor(c, Up(d));
    var bcd := Xor(b, Up(cd));
    OneByteIn(t, l, a, bcd);
    var la := AddByte(t, l, a);
    OneByteIn(t, la, b, cd);
    var lb := AddByte(t, la, b);
    OneByteIn(t, lb, c, d);
    AddByteIsShift(t, AddByte(t, lb, c), d);
  }

  // The low byte of a word is consumed, the rest stays.
  lemma OneByteIn(t: Tables, l: Bits, b: Bits, rest: Bits)
    requires IsByte(b) && HasRoom(rest)
    ensures Shift(t, Xor(l, Xor(b, Up(rest)))) == Xor(AddByte(t, l, b), rest)
  {
    hide Shift, AddByte, Xor, Up, IsByte, HasRoom;
    XorGroups(l, b, Up(rest));
    HighBitsPass(t, Xor(l, b), rest);
    AddByteIsShift(t, l, b);
  }

  // ----- four strides -----

  // What the four partial results stand for: the first has three words after it, and so on.
  function Combined(t: Tables, c0: Bits, c1: Bits, c2: Bits, c3: Bits): Bits {
    Shift4(t, Xor(Shift4(t, Xor(Shift4(t, Xor(Shift4(t, c0), c1)), c2)), c3))
  }

  lemma TermOut(t: Tables, x: Bits, y: Bits, c: Bits)
    requires Linear(t.byteExtension)
    ensures Shift4(t, Xor(Xor(x, y), c)) == Xor(Shift4(t, x), Shift4(t, Xor(y, c)))
  {
    hide Shift4, Xor, Linear;
    XorGroups(x, y, c);
    Shift4Linear(t, x, Xor(y, c));
  }

  lemma StrideIsFourShifts(t: Tables, x: Bits)
    requires GoodTables(t)
    ensures Linear(t.byteExtension) && Stride(t, x) == Shift4(t, Shift4(t, Shift4(t, Shift4(t, x))))
  {
    hide Linear, Shift4, Stride;
  }

  /** Extending the first partial result by a stride and moving it to the end adds a word. */
  lemma StrideAddsWord(t: Tables, c0: Bits, c1: Bits, c2: Bits, c3: Bits, w: Bits)
    requires GoodTables(t)
    ensures Combined(t, c1, c2, c3, Xor(w, Stride(t, c0))) == Shift4(t, Xor(Combined(t, c0, c1, c2, c3), w))
  {
    hide GoodTables, Shift4, Xor, Linear, Stride;
    StrideIsFourShifts(t, c0);
    var f1 := Shift4(t, c0);
    var f2 := Shift4(t, f1);
    var f3 := Shift4(t, f2);
    var s := Shift4(t, f3);
    var d1 := Shift4(t, c1);
    var d2 := Shift4(t, Xor(d1, c2));
    var y := Shift4(t, Xor(d2, c3));
    Shift4Linear(t, f1, c1);
    TermOut(t, f2, d1, c2);
    TermOut(t, f3, d2, c3);
    assert Combined(t, c0, c1, c2, c3) == Xor(s, y);
    XorLaws(s, y);
    XorGroups(y, s, w);
    XorLaws(s, w);
  }

  // ----- any number of bytes, at any address -----

  /** Extend: bytes up to the first aligned address, then strides, then single bytes; for every
      length and alignment this is the fold over single bytes. */
  method Extend(t: Tables, crc: Bits, data: seq<Bits>, address: nat) returns (r: Bits)
    requires GoodTables(t) && IsData(data)
    ensures r == Extended(t, crc, data)
  {
    hide Shift4, Xor, AddByte, AddBytes, Stride, ReadUint32LE, Combined, GoodTables;
    var p, e := 0, |data|;
    ghost var start := Xor(crc, 0xffff_ffff);
    var l := Xor(crc, 0xffff_ffff);
    NoBytes(t, start, data);
    var x := (4 - address % 4) % 4;
    if x <= e {
      while p != x
        invariant 0 <= p <= x && l == AddBytes(t, start, data[..p])
      {
        AddBytesStep(t, start, data, p);
        l := AddByte(t, l, data[p]);
        p := p + 1;
      }
    }
    if e - p >= 16 {
      l, p := ExtendByStrides(t, l, data, p, start);
    }
    while p != e
      invariant 0 <= p <= e && l == AddBytes(t, start, data[..p])
      decreases e - p
    {
      AddBytesStep(t, start, data, p);
      l := AddByte(t, l, data[p]);
      p := p + 1;
    }
    assert data[..e] == data;
    r := Xor(l, 0xffff_ffff);
  }

  // The four partial results, sixteen bytes at a time and then a word at a time.
  method ExtendByStrides(t: Tables, l0: Bits, data: seq<Bits>, p0: nat, ghost start: Bits) returns (l: Bits, p: nat)
    requires GoodTables(t) && IsData(data) && p0 + 16 <= |data| && l0 == AddBytes(t, start, data[..p0])
    ensures p0 + 16 <= p <= |data| && l == AddBytes(t, start, data[..p])
  {
    hide Shift4, Xor, AddByte, AddBytes, Stride, ReadUint32LE, Combined, GoodTables;
    p := p0;
    var crc0 := Xor(ReadUint32LE(data, p), l0);
    var crc1 := ReadUint32LE(data, p + 4);
    var crc2 := ReadUint32LE(data, p + 8);
    var crc3 := ReadUint32LE(data, p + 12);
    FirstSwath(t, start, data, p, l0);
    p := p + 16;
    while |data| - p >= 16
      invariant p0 + 16 <= p <= |data| && Combined(t, crc0, crc1, crc2, crc3) == AddBytes(t, start, data[..p])
    {
      Swath(t, start, data, p, crc0, crc1, crc2, crc3);
      crc0 := Xor(ReadUint32LE(data, p), Stride(t, crc0));
      crc1 := Xor(ReadUint32LE(data, p + 4), Stride(t, crc1));
      crc2 := Xor(ReadUint32LE(data, p + 8), Stride(t, crc2));
      crc3 := Xor(ReadUint32LE(data, p + 12), Stride(t, crc3));
      p := p + 16;
    }
    while |data| - p >= 4
      invariant p0 + 16 <= p <= |data| && Combined(t, crc0, crc1, crc2, crc3) == AddBytes(t, start, data[..p])
    {
      OneWord(t, start, data, p, crc0, crc1, crc2, crc3);
      crc0 := Xor(ReadUint32LE(data, p), Stride(t, crc0));
      crc0, crc1, crc2, crc3 := crc1, crc2, crc3, crc0;
      p := p + 4;
    }
    l := 0;
    CombineSteps(t, crc0, crc1, crc2, crc3);
    l := Shift4(t, Xor(crc0, l));
    l := Shift4(t, Xor(crc1, l));
    l := Shift4(t, Xor(crc2, l));
    l := Shift4(t, Xor(crc3, l));
  }

  function Extended(t: Tables, crc: Bits, data: seq<Bits>): Bits {
    Xor(AddBytes(t, Xor(crc, 0xffff_ffff), data), 0xffff_ffff)
  }

  lemma NoBytes(t: Tables, l: Bits, data: seq<Bits>)
    ensures AddBytes(t, l, data[..0]) == l
  {
  }

  lemma FirstSwath(t: Tables, start: Bits, data: seq<Bits>, p: nat, l: Bits)
    requires p + 16 <= |data| && IsData(data) && l == AddBytes(t, start, data[..p])
    ensures Combined(t, Xor(ReadUint32LE(data, p), l), ReadUint32LE(data, p + 4), ReadUint32LE(data, p + 8), ReadUint32LE(data, p + 12)) ==
            AddBytes(t, start, data[..p + 16])
  {
    hide Shift4, Xor, AddBytes, ReadUint32LE;
    WordIsFourBytes(t, start, data, p);
    WordIsFourBytes(t, start, data, p + 4);
    WordIsFourBytes(t, start, data, p + 8);
    WordIsFourBytes(t, start, data, p + 12);
    XorLaws(ReadUint32LE(data, p), l);
  }

  // One word by a stride, with the partial results rotated.
  lemma OneWord(t: Tables, start: Bits, data: seq<Bits>, p: nat, c0: Bits, c1: Bits, c2: Bits, c3: Bits)
    requires GoodTables(t) && p + 4 <= |data| && IsData(data) && Combined(t, c0, c1, c2, c3) == AddBytes(t, start, data[..p])
    ensures Combined(t, c1, c2, c3, Xor(ReadUint32LE(data, p), Stride(t, c0))) == AddBytes(t, start, data[..p + 4])
  {
    hide Shift4, Xor, AddBytes, ReadUint32LE, Combined, Stride, GoodTables;
    WordIsFourBytes(t, start, data, p);
    StrideAddsWord(t, c0, c1, c2, c3, ReadUint32LE(data, p));
  }

  // Four words by a stride each: rotated four times.
  lemma Swath(t: Tables, start: Bits, data: seq<Bits>, p: nat, c0: Bits, c1: Bits, c2: Bits, c3: Bits)
    requires GoodTables(t) && p + 16 <= |data| && IsData(data) && Combined(t, c0, c1, c2, c3) == AddBytes(t, start, data[..p])
    ensures Combined(t, Xor(ReadUint32LE(data, p), Stride(t, c0)), Xor(ReadUint32LE(data, p + 4), Stride(t, c1)),
                     Xor(ReadUint32LE(data, p + 8), Stride(t, c2)), Xor(ReadUint32LE(data, p + 12), Stride(t, c3))) ==
            AddBytes(t, start, data[..p + 16])
  {
    hide Xor, AddBytes, ReadUint32LE, Combined, Stride, GoodTables;
    var d0 := Xor(ReadUint32LE(data, p), Stride(t, c0));
    var d1 := Xor(ReadUint32LE(data, p + 4), Stride(t, c1));
    var d2 := Xor(ReadUint32LE(data, p + 8), Stride(t, c2));
    OneWord(t, start, data, p, c0, c1, c2, c3);
    OneWord(t, start, data, p + 4, c1, c2, c3, d0);
    OneWord(t, start, data, p + 8, c2, c3, d0, d1);
    OneWord(t, start, data, p + 12, c3, d0, d1, d2);
  }

  lemma CombineSteps(t: Tables, c0: Bits, c1: Bits, c2: Bits, c3: Bits)
    ensures Combined(t, c0, c1, c2, c3) ==
            Shift4(t, Xor(c3, Shift4(t, Xor(c2, Shift4(t, Xor(c1, Shift4(t, Xor(c0, 0))))))))
  {
    hide Shift4, Xor;
    XorLaws(c0, 0);
    XorLaws(0, c0);
    var f0 := Shift4(t, c0);
    XorLaws(c1, f0);
    var f1 := Shift4(t, Xor(f0, c1));
    XorLaws(c2, f1);
    XorLaws(c3, Shift4(t, Xor(f1, c2)));
  }

  lemma {:induction false} AddBytesConcat(t: Tables, l: Bits, a: seq<Bits>, b: seq<Bits>)
    ensures AddBytes(t, l, a + b) == AddBytes(t, AddBytes(t, l, a), b)
  {
    hide AddByte;
    if b == [] {
      assert a + b == a;
    } else {
      assert (a + b)[..|a + b| - 1] == a + b[..|b| - 1];
      AddBytesConcat(t, l, a, b[..|b| - 1]);
    }
  }

  /** Extending by two strings one after the other is extending by their concatenation. */
  lemma ExtendComposes(t: Tables, crc: Bits, a: seq<Bits>, b: seq<Bits>)
    ensures Extended(t, Extended(t, crc, a), b) == Extended(t, crc, a + b)
  {
    hide Xor, AddBytes;
    var l := AddBytes(t, Xor(crc, 0xffff_ffff), a);
    XorLaws(l, 0xffff_ffff);
    AddBytesConcat(t, Xor(crc, 0xffff_ffff), a, b);
  }

  // ----- the tables of the Castagnoli polynomial -----

  // One bit of polynomial division, with the bits reversed.
  const POLYNOMIAL: Bits := 0x82f6_3b78

  function Half(x: Bits): Bits {
    x >> 1
  }

  predicate Odd(x: Bits) {
    x & 1 == 1
  }

  function Remainder(x: Bits): Bits {
    if Odd(x) then POLYNOMIAL else 0
  }

  function DivideBit(x: Bits): Bits {
    Xor(Half(x), Remainder(x))
  }

  function DivideByte(x: Bits): Bits {
    DivideBit(DivideBit(DivideBit(DivideBit(DivideBit(DivideBit(DivideBit(DivideBit(x))))))))
  }

  function DivideWord(x: Bits): Bits {
    DivideByte(DivideByte(DivideByte(DivideByte(x))))
  }

  function DivideStride(x: Bits): Bits {
    DivideWord(DivideWord(DivideWord(DivideWord(x))))
  }

  // Byte k of a word, extended by a stride of zero bytes.
  function CrcTables(): Tables {
    Tables(x => DivideByte(Low(x)), x => DivideStride(Up(Up(Up(Low(x))))), x => DivideStride(Up(Up(Low(x)))),
           x => DivideStride(Up(Low(x))), x => DivideStride(Low(x)))
  }

  lemma DivideBitLinear(x: Bits, y: Bits)
    ensures DivideBit(Xor(x, y)) == Xor(DivideBit(x), DivideBit(y))
  {
    hide Xor, Half, Remainder;
    HalfOfXor(x, y);
    RemainderOfXor(x, y);
    XorSwap(Half(x), Remainder(x), Half(y), Remainder(y));
  }

  lemma RemainderOfXor(x: Bits, y: Bits)
    ensures Remainder(Xor(x, y)) == Xor(Remainder(x), Remainder(y))
  {
    OddOfXor(x, y);
    XorLaws(0, 0);
    XorLaws(POLYNOMIAL, 0);
    XorWithItself(POLYNOMIAL);
    hide Xor, Odd;
  }

  lemma XorWithItself(x: Bits)
    ensures Xor(x, x) == 0
  {
  }

  lemma HalfOfXor(x: Bits, y: Bits)
    ensures Half(Xor(x, y)) == Xor(Half(x), Half(y))
  {
  }

  lemma OddOfXor(x: Bits, y: Bits)
    ensures Odd(Xor(x, y)) <==> Odd(x) != Odd(y)
  {
    var a, b := x & 1, y & 1;
    assert Xor(x, y) & 1 == a ^ b;
    BitIsZeroOrOne(x);
    BitIsZeroOrOne(y);
  }

  lemma BitIsZeroOrOne(x: Bits)
    ensures x & 1 == 0 || x & 1 == 1
  {
  }

  lemma DivideByteLinear(x: Bits, y: Bits)
    ensures DivideByte(Xor(x, y)) == Xor(DivideByte(x), DivideByte(y))
  {
    hide DivideBit, Xor;
    var x1, y1 := DivideBit(x), DivideBit(y);
    var x2, y2 := DivideBit(x1), DivideBit(y1);
    var x3, y3 := DivideBit(x2), DivideBit(y2);
    var x4, y4 := DivideBit(x3), DivideBit(y3);
    var x5, y5 := DivideBit(x4), DivideBit(y4);
    var x6, y6 := DivideBit(x5), DivideBit(y5);
    var x7, y7 := DivideBit(x6), DivideBit(y6);
    DivideBitLinear(x, y);
    DivideBitLinear(x1, y1);
    DivideBitLinear(x2, y2);
    DivideBitLinear(x3, y3);
    DivideBitLinear(x4, y4);
    DivideBitLinear(x5, y5);
    DivideBitLinear(x6, y6);
    DivideBitLinear(x7, y7);
  }

  lemma DivideWordLinear(x: Bits, y: Bits)
    ensures DivideWord(Xor(x, y)) == Xor(DivideWord(x), DivideWord(y))
  {
    hide DivideByte, Xor;
    var x1, y1 := DivideByte(x), DivideByte(y);
    var x2, y2 := DivideByte(x1), DivideByte(y1);
    var x3, y3 := DivideByte(x2), DivideByte(y2);
    DivideByteLinear(x, y);
    DivideByteLinear(x1, y1);
    DivideByteLinear(x2, y2);
    DivideByteLinear(x3, y3);
  }

  lemma DivideStrideLinear(x: Bits, y: Bits)
    ensures DivideStride(Xor(x, y)) == Xor(DivideStride(x), DivideStride(y))
  {
    hide DivideWord, Xor;
    var x1, y1 := DivideWord(x), DivideWord(y);
    var x2, y2 := DivideWord(x1), DivideWord(y1);
    var x3, y3 := DivideWord(x2), DivideWord(y2);
    DivideWordLinear(x, y);
    DivideWordLinear(x1, y1);
    DivideWordLinear(x2, y2);
    DivideWordLinear(x3, y3);
  }

  // A word without low bits moves down by eight bits at once.
  lemma DivideHigh(y: Bits)
    ensures DivideByte(Up(High(y))) == High(y)
  {
  }

  lemma LowAndHigh(x: Bits)
    ensures x == Xor(Low(x), Up(High(x)))
    ensures Low(Low(x)) == Low(x)
    ensures Low(High(High(High(x)))) == High(High(High(x)))
  {
  }

  lemma UpLinear(x: Bits, y: Bits)
    ensures Up(Xor(x, y)) == Xor(Up(x), Up(y))
  {
  }

  lemma BytesOfWord(x: Bits)
    ensures x == Xor(Xor(Xor(Low(x), Up(Low(High(x)))), Up(Up(Low(High(High(x)))))), Up(Up(Up(High(High(High(x)))))))
  {
    hide Xor, Low, High, Up;
    var x1, x2, x3 := High(x), High(High(x)), High(High(High(x)));
    LowAndHigh(x);
    LowAndHigh(x1);
    LowAndHigh(x2);
    UpLinear(Low(x1), Up(x2));
    UpLinear(Low(x2), Up(x3));
    UpLinear(Up(Low(x2)), Up(Up(x3)));
    XorGroups(Low(x), Up(Low(x1)), Up(Up(x2)));
    XorGroups(Xor(Low(x), Up(Low(x1))), Up(Up(Low(x2))), Up(Up(Up(x3))));
  }

  lemma ShiftDivides(x: Bits)
    ensures Shift(CrcTables(), x) == DivideByte(x)
  {
    LowAndHigh(x);
    DivideHigh(x);
    DivideByteLinear(Low(x), Up(High(x)));
    hide DivideByte, Xor, Low, High, Up;
  }

  lemma Shift4Divides(x: Bits)
    ensures Shift4(CrcTables(), x) == DivideWord(x)
  {
    hide DivideByte, Shift, CrcTables;
    ShiftDivides(x);
    ShiftDivides(DivideByte(x));
    ShiftDivides(DivideByte(DivideByte(x)));
    ShiftDivides(DivideByte(DivideByte(DivideByte(x))));
  }

  lemma StrideDivides(x: Bits)
    ensures Stride(CrcTables(), x) == DivideStride(x)
  {
    BytesOfWord(x);
    hide DivideStride, Xor, Low, High, Up;
    LowAndHigh(x);
    LowAndHigh(High(x));
    LowAndHigh(High(High(x)));
    var a, b, c, d := Low(x), Up(Low(High(x))), Up(Up(Low(High(High(x))))), Up(Up(Up(High(High(High(x))))));
    DivideStrideLinear(a, b);
    DivideStrideLinear(Xor(a, b), c);
    DivideStrideLinear(Xor(Xor(a, b), c), d);
  }

  /** The tables of the polynomial are what the strided algorithm needs. */
  lemma CrcTablesAreGood()
    ensures GoodTables(CrcTables())
  {
    var t := CrcTables();
    hide DivideByte, DivideWord, Stride, Shift4, Xor, CrcTables;
    forall a, b ensures t.byteExtension(Xor(a, b)) == Xor(t.byteExtension(a), t.byteExtension(b)) {
      ByteTableLinear(a, b);
    }
    forall x ensures Stride(t, x) == Shift4(t, Shift4(t, Shift4(t, Shift4(t, x)))) {
      StrideDivides(x);
      Shift4Divides(x);
      Shift4Divides(DivideWord(x));
      Shift4Divides(DivideWord(DivideWord(x)));
      Shift4Divides(DivideWord(DivideWord(DivideWord(x))));
    }
  }

  lemma ByteTableLinear(a: Bits, b: Bits)
    ensures CrcTables().byteExtension(Xor(a, b)) == Xor(CrcTables().byteExtension(a), CrcTables().byteExtension(b))
  {
    XorParts(a, b);
    DivideByteLinear(Low(a), Low(b));
    hide DivideByte, Xor, Low;
  }

  /** Entries of the byte table, at the powers of two; the others follow from linearity. */
  lemma ByteTableEntries()
    ensures var f := CrcTables().byteExtension;
            && f(1) == 0xf26b_8303 && f(2) == 0xe13b_70f7 && f(4) == 0xc79a_971f && f(8) == 0x8ad9_58cf
            && f(16) == 0x105e_c76f && f(32) == 0x20bd_8ede && f(64) == 0x417b_1dbc && f(128) == 0x82f6_3b78
  {
  }

  lemma StrideTable3Entry()
    ensures CrcTables().stride3(1) == 0xf20c_0dfe
  {
    assert Low(1) == 0x0000_0001;
    assert DivideWord(0x0000_0001) == 0xdd45_aab8;
    assert DivideWord(0xdd45_aab8) == 0x493c_7d27;
    assert DivideWord(0x493c_7d27) == 0x3171_d430;
    assert DivideWord(0x3171_d430) == 0xf20c_0dfe;
    hide DivideWord;
  }

  /** The checksum of nothing is 0, and that of one zero byte, with both complements. */
  lemma FirstChecksums()
    ensures Extended(CrcTables(), 0, []) == 0 && Extended(CrcTables(), 0, [0]) == 0x527d_5351
  {
    var t := CrcTables();
    assert Xor(0, 0xffff_ffff) == 0xffff_ffff;
    assert AddBytes(t, 0xffff_ffff, []) == 0xffff_ffff && Xor(0xffff_ffff, 0xffff_ffff) == 0;
    FirstByte();
    assert Xor(0xad82_acae, 0xffff_ffff) == 0x527d_5351;
  }

  lemma FirstByte()
    ensures AddBytes(CrcTables(), 0xffff_ffff, [0]) == 0xad82_acae
  {
    var t := CrcTables();
    assert Xor(Low(0xffff_ffff), 0) == 0xff && High(0xffff_ffff) == 0x00ff_ffff && Low(0xff) == 0xff;
    assert DivideByte(0xff) == 0xad7d_5351;
    assert Xor(0xad7d_5351, 0x00ff_ffff) == 0xad82_acae;
    hide DivideByte, Xor, Low, High;
    assert AddBytes(t, 0xffff_ffff, []) == 0xffff_ffff && [0][..0] == [];
    assert AddBytes(t, 0xffff_ffff, [0]) == AddByte(t, 0xffff_ffff, 0);
  }
}
