/** The encoding of version edits in the manifest. */
module EditCodec {
  import opened DbFormat
  import opened Coding

  datatype NewFile = NewFile(level: nat, number: Word64, size: Word64, smallest: Bytes, largest: Bytes)

  // Fields that an edit may leave out are options; deleted files are in the order of their set.
  datatype Edit = Edit(comparator: Option<Bytes>, logNumber: Option<Word64>, prevLogNumber: Option<Word64>,
                       nextFileNumber: Option<Word64>, lastSequence: Option<Word64>,
                       compactPointers: seq<(nat, Bytes)>, deletedFiles: seq<(nat, Word64)>, newFiles: seq<NewFile>)

  predicate Before(a: (nat, Word64), b: (nat, Word64)) {
    a.0 < b.0 || (a.0 == b.0 && a.1 < b.1)
  }

  ghost predicate IsSet(files: seq<(nat, Word64)>) {
    forall i, j :: 0 <= i < j < |files| ==> Before(files[i], files[j])
  }

  // std::set::insert
  function Insert(files: seq<(nat, Word64)>, f: (nat, Word64)): seq<(nat, Word64)> {
    if files == [] || Before(f, files[0]) then [f] + files
    else if files[0] == f then files
    else [files[0]] + Insert(files[1..], f)
  }

  // Levels exist, keys are not empty, and every string has a 32-bit length.
  ghost predicate ValidEdit(e: Edit) {
    && (e.comparator.Some? ==> |e.comparator.value| < 0x1_0000_0000)
    && (forall i :: 0 <= i < |e.compactPointers| ==> e.compactPointers[i].0 < NUM_LEVELS && GoodKey(e.compactPointers[i].1))
    && (forall i :: 0 <= i < |e.deletedFiles| ==> e.deletedFiles[i].0 < NUM_LEVELS)
    && IsSet(e.deletedFiles)
    && (forall i :: 0 <= i < |e.newFiles| ==> e.newFiles[i].level < NUM_LEVELS && GoodKey(e.newFiles[i].smallest) && GoodKey(e.newFiles[i].largest))
  }

  predicate GoodKey(key: Bytes) {
    0 < |key| < 0x1_0000_0000
  }

  // ----- an edit as a list of tagged fields -----

  datatype Field =
    | Comparator(name: Bytes)
    | LogNumber(number: Word64)
    | NextFileNumber(number: Word64)
    | LastSequence(number: Word64)
    | CompactPointer(level: nat, key: Bytes)
    | DeletedFile(level: nat, number: Word64)
    | Added(file: NewFile)
    | PrevLogNumber(number: Word64)
  {
    function Tag(): nat {
      match this
      case Comparator(_) => 1
      case LogNumber(_) => 2
      case NextFileNumber(_) => 3
      case LastSequence(_) => 4
      case CompactPointer(_, _) => 5
      case DeletedFile(_, _) => 6
      case Added(_) => 7
      case PrevLogNumber(_) => 9
    }

    ghost predicate Valid() {
      match this
      case Comparator(name) => |name| < 0x1_0000_0000
      case CompactPointer(level, key) => level < NUM_LEVELS && GoodKey(key)
      case DeletedFile(level, _) => level < NUM_LEVELS
      case Added(f) => f.level < NUM_LEVELS && GoodKey(f.smallest) && GoodKey(f.largest)
      case _ => true
    }
  }

  function Encode(f: Field): Bytes {
    [f.Tag()] +
    match f
    case Comparator(name) => LengthPrefixed(name)
    case LogNumber(n) => Varint(n)
    case NextFileNumber(n) => Varint(n)
    case LastSequence(n) => Varint(n)
    case PrevLogNumber(n) => Varint(n)
    case CompactPointer(level, key) => Varint(level) + LengthPrefixed(key)
    case DeletedFile(level, n) => Varint(level) + Varint(n)
    case Added(f) => Varint(f.level) + Varint(f.number) + Varint(f.size) + LengthPrefixed(f.smallest) + LengthPrefixed(f.largest)
  }

  function EncodeAll(fields: seq<Field>): Bytes {
    if fields == [] then [] else Encode(fields[0]) + EncodeAll(fields[1..])
  }

  function OptionField<T>(o: Option<T>, make: T -> Field): seq<Field> {
    if o.Some? then [make(o.value)] else []
  }

  // The fields in the order of EncodeTo.
  function HeaderFields(e: Edit): seq<Field> {
    OptionField(e.comparator, (name: Bytes) => Comparator(name)) + OptionField(e.logNumber, (n: Word64) => LogNumber(n))
    + OptionField(e.prevLogNumber, (n: Word64) => PrevLogNumber(n)) + OptionField(e.nextFileNumber, (n: Word64) => NextFileNumber(n))
    + OptionField(e.lastSequence, (n: Word64) => LastSequence(n))
  }

  function FieldsOf(e: Edit): seq<Field> {
    HeaderFields(e) + CompactFields(e.compactPointers) + DeletedFields(e.deletedFiles) + NewFields(e.newFiles)
  }

  // What decoding a field does to the edit.
  function Apply(e: Edit, f: Field): Edit {
    match f
    case Comparator(name) => e.(comparator := Some(name))
    case LogNumber(n) => e.(logNumber := Some(n))
    case NextFileNumber(n) => e.(nextFileNumber := Some(n))
    case LastSequence(n) => e.(lastSequence := Some(n))
    case PrevLogNumber(n) => e.(prevLogNumber := Some(n))
    case CompactPointer(level, key) => e.(compactPointers := e.compactPointers + [(level, key)])
    case DeletedFile(level, n) => e.(deletedFiles := Insert(e.deletedFiles, (level, n)))
    case Added(file) => e.(newFiles := e.newFiles + [file])
  }

  function ApplyAll(e: Edit, fields: seq<Field>): Edit
    decreases fields
  {
    if fields == [] then e else ApplyAll(Apply(e, fields[0]), fields[1..])
  }

  // Clear leaves the compaction pointers alone.
  function Cleared(e: Edit): Edit {
    Edit(None, None, None, None, None, e.compactPointers, [], [])
  }

  // ----- consuming the input -----

  function TakeKey(input: Bytes): (r: Option<(Bytes, Bytes)>)
    ensures r.Some? ==> |r.value.1| < |input|
  {
    match TakeString(input)
    case None => None
    case Some((key, rest)) => if key == [] then None else Some((key, rest))
  }

  function TakeLevel(input: Bytes): (r: Option<(nat, Bytes)>)
    ensures r.Some? ==> |r.value.1| < |input|
  {
    match TakeVarint32(input)
    case None => None
    case Some((v, rest)) => if v < NUM_LEVELS then Some((v, rest)) else None
  }

  // Nothing more to read, or a field and what follows it, or an error.
  datatype Parsed = NoTag | Bad | Good(field: Field, rest: Bytes)

  function NumberField(n: Option<(Word64, Bytes)>, make: Word64 -> Field): (r: Parsed)
    ensures r.Good? ==> n.Some? && r.rest == n.value.1
  {
    match n
    case None => Bad
    case Some((v, rest)) => Good(make(v), rest)
  }

  function ParseBody(tag: Word, b: Bytes): (r: Parsed)
    ensures r.Good? ==> |r.rest| < |b|
  {
    if tag == 1 then
      match TakeString(b)
      case None => Bad
      case Some((name, rest)) => Good(Comparator(name), rest)
    else if tag == 2 then NumberField(TakeVarint64(b), (n: Word64) => LogNumber(n))
    else if tag == 3 then NumberField(TakeVarint64(b), (n: Word64) => NextFileNumber(n))
    else if tag == 4 then NumberField(TakeVarint64(b), (n: Word64) => LastSequence(n))
    else if tag == 9 then NumberField(TakeVarint64(b), (n: Word64) => PrevLogNumber(n))
    else if tag == 5 then
      match TakeLevel(b)
      case None => Bad
      case Some((level, c)) =>
        match TakeKey(c)
        case None => Bad
        case Some((key, rest)) => Good(CompactPointer(level, key), rest)
    else if tag == 6 then
      match TakeLevel(b)
      case None => Bad
      case Some((level, c)) => NumberField(TakeVarint64(c), (n: Word64) => DeletedFile(level, n))
    else if tag == 7 then ParseNewFile(b)
    else Bad
  }

  function ParseNewFile(b: Bytes): (r: Parsed)
    ensures r.Good? ==> |r.rest| < |b|
  {
    match TakeLevel(b)
    case None => Bad
    case Some((level, c)) =>
      match TakeVarint64(c)
      case None => Bad
      case Some((number, d)) =>
        match TakeVarint64(d)
        case None => Bad
        case Some((size, e)) =>
          match TakeKey(e)
          case None => Bad
          case Some((smallest, f)) =>
            match TakeKey(f)
            case None => Bad
            case Some((largest, rest)) => Good(Added(NewFile(level, number, size, smallest, largest)), rest)
  }

  function ParseField(input: Bytes): (r: Parsed)
    ensures r.Good? ==> |r.rest| < |input|
  {
    match TakeVarint32(input)
    case None => NoTag
    case Some((tag, b)) => ParseBody(tag, b)
  }

  // ----- round trips -----

  /** A field that was encoded is read back, whatever follows it. */
  lemma FieldRoundTrip(f: Field, rest: Bytes)
    requires f.Valid()
    ensures ParseField(Encode(f) + rest) == Good(f, rest)
  {
    hide TakeVarint32, TakeVarint64, TakeString, LengthPrefixed, Varint;
    var tag := f.Tag();
    var body := Encode(f)[1..];
    assert Encode(f) + rest == [tag] + (body + rest);
    OneByteTag(tag, body + rest);
    assert ParseField(Encode(f) + rest) == ParseBody(tag, body + rest);
    BodyRoundTrip(f, body, rest);
  }

  lemma OneByteTag(tag: Word, rest: Bytes)
    requires tag < 128
    ensures TakeVarint32([tag] + rest) == Some((tag, rest))
  {
    Varint32Taken(tag, rest);
  }

  lemma BodyRoundTrip(f: Field, body: Bytes, rest: Bytes)
    requires f.Valid() && Encode(f) == [f.Tag()] + body
    ensures ParseBody(f.Tag(), body + rest) == Good(f, rest)
  {
    hide TakeVarint32, TakeVarint64, TakeString, LengthPrefixed, Varint, ParseNewFile;
    assert Encode(f)[1..] == body;
    match f {
      case Comparator(name) => StringTaken(name, rest);
      case LogNumber(n) => Varint64Taken(n, rest);
      case NextFileNumber(n) => Varint64Taken(n, rest);
      case LastSequence(n) => Varint64Taken(n, rest);
      case PrevLogNumber(n) => Varint64Taken(n, rest);
      case CompactPointer(level, key) =>
        assert body + rest == Varint(level) + (LengthPrefixed(key) + rest);
        Varint32Taken(level, LengthPrefixed(key) + rest);
        StringTaken(key, rest);
      case DeletedFile(level, n) =>
        assert body + rest == Varint(level) + (Varint(n) + rest);
        Varint32Taken(level, Varint(n) + rest);
        Varint64Taken(n, rest);
      case Added(file) => NewFileRoundTrip(file, body, rest);
    }
  }

  lemma NewFileRoundTrip(f: NewFile, body: Bytes, rest: Bytes)
    requires Added(f).Valid()
    requires body == Varint(f.level) + Varint(f.number) + Varint(f.size) + LengthPrefixed(f.smallest) + LengthPrefixed(f.largest)
    ensures ParseNewFile(body + rest) == Good(Added(f), rest)
  {
    hide TakeVarint32, TakeVarint64, TakeString, LengthPrefixed, Varint;
    var e := LengthPrefixed(f.smallest) + (LengthPrefixed(f.largest) + rest);
    assert body + rest == Varint(f.level) + (Varint(f.number) + (Varint(f.size) + e));
    Varint32Taken(f.level, Varint(f.number) + (Varint(f.size) + e));
    Varint64Taken(f.number, Varint(f.size) + e);
    Varint64Taken(f.size, e);
    StringTaken(f.smallest, LengthPrefixed(f.largest) + rest);
    StringTaken(f.largest, rest);
  }

  // ----- whole edits -----

  // Fields are read and applied until nothing is left; anything else is an error.
  function DecodeAll(e: Edit, input: Bytes): Option<Edit>
    decreases |input|
  {
    match ParseField(input)
    case NoTag => if input == [] then Some(e) else None
    case Bad => None
    case Good(f, rest) => DecodeAll(Apply(e, f), rest)
  }

  lemma {:induction false} EncodedConcat(a: seq<Field>, b: seq<Field>)
    ensures EncodeAll(a + b) == EncodeAll(a) + EncodeAll(b)
  {
    hide Encode;
    if a == [] {
      assert a + b == b;
    } else {
      assert (a + b)[1..] == a[1..] + b;
      EncodedConcat(a[1..], b);
    }
  }

  lemma {:induction false} AppliedConcat(e: Edit, a: seq<Field>, b: seq<Field>)
    ensures ApplyAll(e, a + b) == ApplyAll(ApplyAll(e, a), b)
    decreases a
  {
    hide Apply;
    if a == [] {
      assert a + b == b;
    } else {
      assert (a + b)[1..] == a[1..] + b;
      AppliedConcat(Apply(e, a[0]), a[1..], b);
    }
  }

  lemma {:induction false} FieldsRoundTrip(e: Edit, fields: seq<Field>)
    requires forall i :: 0 <= i < |fields| ==> fields[i].Valid()
    ensures DecodeAll(e, EncodeAll(fields)) == Some(ApplyAll(e, fields))
    decreases fields
  {
    hide Encode, Apply, ParseField;
    if fields == [] {
      NothingParsed();
    } else {
      FieldRoundTrip(fields[0], EncodeAll(fields[1..]));
      FieldsRoundTrip(Apply(e, fields[0]), fields[1..]);
    }
  }

  lemma NothingParsed()
    ensures ParseField([]) == NoTag
  {
  }

  // ----- applying the fields of an edit -----

  function CompactFields(ps: seq<(nat, Bytes)>): seq<Field> {
    seq(|ps|, i requires 0 <= i < |ps| => CompactPointer(ps[i].0, ps[i].1))
  }

  function DeletedFields(fs: seq<(nat, Word64)>): seq<Field> {
    seq(|fs|, i requires 0 <= i < |fs| => DeletedFile(fs[i].0, fs[i].1))
  }

  function NewFields(fs: seq<NewFile>): seq<Field> {
    seq(|fs|, i requires 0 <= i < |fs| => Added(fs[i]))
  }

  lemma {:induction false} CompactApplied(e: Edit, ps: seq<(nat, Bytes)>)
    ensures ApplyAll(e, CompactFields(ps)) == e.(compactPointers := e.compactPointers + ps)
    decreases ps
  {
    if ps != [] {
      assert CompactFields(ps)[1..] == CompactFields(ps[1..]);
      CompactApplied(e.(compactPointers := e.compactPointers + [ps[0]]), ps[1..]);
      assert e.compactPointers + [ps[0]] + ps[1..] == e.compactPointers + ps;
    } else {
      assert e.compactPointers + ps == e.compactPointers;
    }
  }

  lemma {:induction false} NewApplied(e: Edit, fs: seq<NewFile>)
    ensures ApplyAll(e, NewFields(fs)) == e.(newFiles := e.newFiles + fs)
    decreases fs
  {
    if fs != [] {
      assert NewFields(fs)[1..] == NewFields(fs[1..]);
      NewApplied(e.(newFiles := e.newFiles + [fs[0]]), fs[1..]);
      assert e.newFiles + [fs[0]] + fs[1..] == e.newFiles + fs;
    } else {
      assert e.newFiles + fs == e.newFiles;
    }
  }

  lemma {:induction false} InsertLast(fs: seq<(nat, Word64)>, f: (nat, Word64))
    requires IsSet(fs + [f])
    ensures Insert(fs, f) == fs + [f]
  {
    if fs != [] {
      assert Before((fs + [f])[0], (fs + [f])[|fs|]);
      assert fs[1..] + [f] == (fs + [f])[1..];
      InsertLast(fs[1..], f);
    }
  }

  lemma {:induction false} DeletedApplied(e: Edit, fs: seq<(nat, Word64)>)
    requires IsSet(e.deletedFiles + fs)
    ensures ApplyAll(e, DeletedFields(fs)) == e.(deletedFiles := e.deletedFiles + fs)
    decreases fs
  {
    if fs != [] {
      var all := e.deletedFiles + fs;
      assert DeletedFields(fs)[1..] == DeletedFields(fs[1..]);
      assert e.deletedFiles + [fs[0]] == all[..|e.deletedFiles| + 1];
      InsertLast(e.deletedFiles, fs[0]);
      assert e.deletedFiles + [fs[0]] + fs[1..] == all;
      DeletedApplied(e.(deletedFiles := e.deletedFiles + [fs[0]]), fs[1..]);
    } else {
      assert e.deletedFiles + fs == e.deletedFiles;
    }
  }

  /** Decoding what an edit was encoded to gives the edit back, except that the compaction
      pointers are added to those the target already had. */
  lemma EditRoundTrip(target: Edit, e: Edit)
    requires ValidEdit(e)
    ensures DecodeAll(Cleared(target), EncodeAll(FieldsOf(e))) == Some(e.(compactPointers := target.compactPointers + e.compactPointers))
  {
    FieldsValid(e);
    FieldsRoundTrip(Cleared(target), FieldsOf(e));
    FieldsApplied(target, e);
  }

  /** So the edit itself comes back exactly when the target had no compaction pointers. */
  lemma EditRoundTripIff(target: Edit, e: Edit)
    requires ValidEdit(e)
    ensures DecodeAll(Cleared(target), EncodeAll(FieldsOf(e))) == Some(e) <==> target.compactPointers == []
  {
    hide *;
    EditRoundTrip(target, e);
    var pointers := target.compactPointers + e.compactPointers;
    assert |pointers| == |target.compactPointers| + |e.compactPointers|;
    assert target.compactPointers == [] ==> pointers == e.compactPointers;
    assert e.(compactPointers := pointers) == e <==> pointers == e.compactPointers;
  }

  lemma FieldsValid(e: Edit)
    requires ValidEdit(e)
    ensures forall i :: 0 <= i < |FieldsOf(e)| ==> FieldsOf(e)[i].Valid()
  {
    var fields := FieldsOf(e);
    forall f | f in fields ensures f.Valid() {
    }
    forall i | 0 <= i < |fields| ensures fields[i].Valid() {
      assert fields[i] in fields;
    }
  }

  lemma HeaderApplied(target: Edit, e: Edit)
    ensures ApplyAll(Cleared(target), HeaderFields(e)) ==
            Edit(e.comparator, e.logNumber, e.prevLogNumber, e.nextFileNumber, e.lastSequence, target.compactPointers, [], [])
  {
    hide ApplyAll;
    var a := OptionField(e.comparator, (name: Bytes) => Comparator(name));
    var b := OptionField(e.logNumber, (n: Word64) => LogNumber(n));
    var c := OptionField(e.prevLogNumber, (n: Word64) => PrevLogNumber(n));
    var d := OptionField(e.nextFileNumber, (n: Word64) => NextFileNumber(n));
    var f := OptionField(e.lastSequence, (n: Word64) => LastSequence(n));
    var x0 := Cleared(target);
    AppliedConcat(x0, a + b + c + d, f);
    AppliedConcat(x0, a + b + c, d);
    AppliedConcat(x0, a + b, c);
    AppliedConcat(x0, a, b);
    AtMostOneApplied(x0, a);
    var x1 := x0.(comparator := e.comparator);
    AtMostOneApplied(x1, b);
    var x2 := x1.(logNumber := e.logNumber);
    AtMostOneApplied(x2, c);
    var x3 := x2.(prevLogNumber := e.prevLogNumber);
    AtMostOneApplied(x3, d);
    var x4 := x3.(nextFileNumber := e.nextFileNumber);
    AtMostOneApplied(x4, f);
  }

  lemma AtMostOneApplied(e: Edit, fields: seq<Field>)
    requires |fields| <= 1
    ensures ApplyAll(e, fields) == if fields == [] then e else Apply(e, fields[0])
  {
  }

  lemma FieldsApplied(target: Edit, e: Edit)
    requires ValidEdit(e)
    ensures ApplyAll(Cleared(target), FieldsOf(e)) == e.(compactPointers := target.compactPointers + e.compactPointers)
  {
    var header := HeaderFields(e);
    AppliedConcat(Cleared(target), header + CompactFields(e.compactPointers) + DeletedFields(e.deletedFiles), NewFields(e.newFiles));
    AppliedConcat(Cleared(target), header + CompactFields(e.compactPointers), DeletedFields(e.deletedFiles));
    AppliedConcat(Cleared(target), header, CompactFields(e.compactPointers));
    HeaderApplied(target, e);
    var x := ApplyAll(Cleared(target), header);
    CompactApplied(x, e.compactPointers);
    var y := x.(compactPointers := x.compactPointers + e.compactPointers);
    assert y.deletedFiles + e.deletedFiles == e.deletedFiles;
    DeletedApplied(y, e.deletedFiles);
    var z := y.(deletedFiles := e.deletedFiles);
    assert z.newFiles + e.newFiles == e.newFiles;
    NewApplied(z, e.newFiles);
  }

  // ----- the loops -----

  method EncodeTo(e: Edit) returns (dst: Bytes)
    ensures dst == EncodeAll(FieldsOf(e))
  {
    hide Encode, EncodeAll, OptionField;
    dst := EncodeHeader(e);
    var fields := HeaderFields(e);
    for i := 0 to |e.compactPointers|
      invariant fields == HeaderFields(e) + CompactFields(e.compactPointers)[..i] && dst == EncodeAll(fields)
    {
      var f := CompactPointer(e.compactPointers[i].0, e.compactPointers[i].1);
      EncodedMore(fields, f);
      dst, fields := dst + Encode(f), fields + [f];
    }
    assert fields == HeaderFields(e) + CompactFields(e.compactPointers);
    for i := 0 to |e.deletedFiles|
      invariant fields == HeaderFields(e) + CompactFields(e.compactPointers) + DeletedFields(e.deletedFiles)[..i] && dst == EncodeAll(fields)
    {
      var f := DeletedFile(e.deletedFiles[i].0, e.deletedFiles[i].1);
      EncodedMore(fields, f);
      dst, fields := dst + Encode(f), fields + [f];
    }
    assert fields == HeaderFields(e) + CompactFields(e.compactPointers) + DeletedFields(e.deletedFiles);
    for i := 0 to |e.newFiles|
      invariant fields == HeaderFields(e) + CompactFields(e.compactPointers) + DeletedFields(e.deletedFiles) + NewFields(e.newFiles)[..i]
      invariant dst == EncodeAll(fields)
    {
      var f := Added(e.newFiles[i]);
      EncodedMore(fields, f);
      dst, fields := dst + Encode(f), fields + [f];
    }
    assert fields == FieldsOf(e);
  }

  method EncodeHeader(e: Edit) returns (dst: Bytes)
    ensures dst == EncodeAll(HeaderFields(e))
  {
    hide Encode, EncodeAll, LengthPrefixed, Varint, HeaderFields;
    ghost var a, b, c, d, f := HeaderParts(e);
    NothingEncoded();
    dst := [];
    PartEncoded([], a);
    if e.comparator.Some? {
      AppendedField(dst, Comparator(e.comparator.value));
      dst := dst + [1];
      dst := dst + LengthPrefixed(e.comparator.value);
    }
    assert dst == EncodeAll(a);
    PartEncoded(a, b);
    if e.logNumber.Some? {
      AppendedField(dst, LogNumber(e.logNumber.value));
      dst := dst + [2];
      dst := dst + Varint(e.logNumber.value);
    }
    assert dst == EncodeAll(a + b);
    PartEncoded(a + b, c);
    if e.prevLogNumber.Some? {
      AppendedField(dst, PrevLogNumber(e.prevLogNumber.value));
      dst := dst + [9];
      dst := dst + Varint(e.prevLogNumber.value);
    }
    assert dst == EncodeAll(a + b + c);
    PartEncoded(a + b + c, d);
    if e.nextFileNumber.Some? {
      AppendedField(dst, NextFileNumber(e.nextFileNumber.value));
      dst := dst + [3];
      dst := dst + Varint(e.nextFileNumber.value);
    }
    assert dst == EncodeAll(a + b + c + d);
    PartEncoded(a + b + c + d, f);
    if e.lastSequence.Some? {
      AppendedField(dst, LastSequence(e.lastSequence.value));
      dst := dst + [4];
      dst := dst + Varint(e.lastSequence.value);
    }
    assert dst == EncodeAll(a + b + c + d + f);
  }

  function HeaderBody(f: Field): Bytes
    requires f.Comparator? || f.LogNumber? || f.PrevLogNumber? || f.NextFileNumber? || f.LastSequence?
  {
    if f.Comparator? then LengthPrefixed(f.name) else Varint(f.number)
  }

  lemma AppendedField(dst: Bytes, f: Field)
    requires f.Comparator? || f.LogNumber? || f.PrevLogNumber? || f.NextFileNumber? || f.LastSequence?
    ensures dst + [f.Tag()] + HeaderBody(f) == dst + Encode(f)
  {
    hide LengthPrefixed, Varint;
    assert Encode(f) == [f.Tag()] + HeaderBody(f);
  }

  // The optional fields, each as a list of at most one.
  lemma HeaderParts(e: Edit) returns (a: seq<Field>, b: seq<Field>, c: seq<Field>, d: seq<Field>, f: seq<Field>)
    ensures a == if e.comparator.Some? then [Comparator(e.comparator.value)] else []
    ensures b == if e.logNumber.Some? then [LogNumber(e.logNumber.value)] else []
    ensures c == if e.prevLogNumber.Some? then [PrevLogNumber(e.prevLogNumber.value)] else []
    ensures d == if e.nextFileNumber.Some? then [NextFileNumber(e.nextFileNumber.value)] else []
    ensures f == if e.lastSequence.Some? then [LastSequence(e.lastSequence.value)] else []
    ensures HeaderFields(e) == a + b + c + d + f
  {
    a := OptionField(e.comparator, (name: Bytes) => Comparator(name));
    b := OptionField(e.logNumber, (n: Word64) => LogNumber(n));
    c := OptionField(e.prevLogNumber, (n: Word64) => PrevLogNumber(n));
    d := OptionField(e.nextFileNumber, (n: Word64) => NextFileNumber(n));
    f := OptionField(e.lastSequence, (n: Word64) => LastSequence(n));
  }

  lemma PartEncoded(fields: seq<Field>, part: seq<Field>)
    requires |part| <= 1
    ensures EncodeAll(fields + part) == if part == [] then EncodeAll(fields) else EncodeAll(fields) + Encode(part[0])
    ensures fields == [] ==> fields + part == part
  {
    hide Encode, EncodeAll;
    if part == [] {
      assert fields + part == fields;
    } else {
      assert part == [part[0]];
      EncodedMore(fields, part[0]);
    }
  }

  lemma NothingEncoded()
    ensures EncodeAll([]) == []
  {
  }

  lemma EncodedMore(fields: seq<Field>, f: Field)
    ensures EncodeAll(fields + [f]) == EncodeAll(fields) + Encode(f)
  {
    EncodedConcat(fields, [f]);
    hide Encode;
    assert [f][1..] == [] && EncodeAll([f]) == Encode(f) + [];
  }

  /** Reads fields into the cleared target until the input ends or something is wrong with it. */
  method DecodeFrom(target: Edit, src: Bytes) returns (ok: bool, e: Edit)
    ensures match DecodeAll(Cleared(target), src)
            case Some(x) => ok && e == x
            case None => !ok
  {
    hide ParseBody, Apply, TakeVarint32;
    e := Cleared(target);
    var input := src;
    ok := true;
    while ok
      invariant ok ==> DecodeAll(e, input) == DecodeAll(Cleared(target), src)
      invariant !ok ==> DecodeAll(Cleared(target), src) == None
      decreases |input|, ok
    {
      var tag := TakeVarint32(input);
      if tag.None? {
        break;
      }
      var p := ParseBody(tag.value.0, tag.value.1);
      if p.Good? {
        e := Apply(e, p.field);
        input := p.rest;
      } else {
        assert ParseField(input) == p;
        BodyHasTag(tag.value.0, tag.value.1);
        ok := false;
      }
    }
    if ok && input != [] {
      ok := false;
    }
  }

  lemma BodyHasTag(tag: Word, b: Bytes)
    ensures ParseBody(tag, b) != NoTag
  {
    hide TakeVarint32, TakeVarint64, TakeString;
  }
}

/** Edits that end too early. */
module EditCut {
  import opened DbFormat
  import opened Coding
  import opened EditCodec

  lemma KeyExtends(input: Bytes, more: Bytes)
    requires TakeKey(input).Some?
    ensures var r := TakeKey(input).value; TakeKey(input + more) == Some((r.0, r.1 + more))
  {
    hide TakeString;
    StringExtends(input, more);
  }

  lemma LevelExtends(input: Bytes, more: Bytes)
    requires TakeLevel(input).Some?
    ensures var r := TakeLevel(input).value; TakeLevel(input + more) == Some((r.0, r.1 + more))
  {
    hide TakeVarint32;
    Varint32Extends(input, more);
  }

  lemma NewFileExtends(b: Bytes, more: Bytes)
    requires ParseNewFile(b).Good?
    ensures var r := ParseNewFile(b); ParseNewFile(b + more) == Good(r.field, r.rest + more)
  {
    hide TakeLevel, TakeKey, TakeVarint64;
    LevelExtends(b, more);
    var c := TakeLevel(b).value.1;
    Varint64Extends(c, more);
    var d := TakeVarint64(c).value.1;
    Varint64Extends(d, more);
    var e := TakeVarint64(d).value.1;
    KeyExtends(e, more);
    var f := TakeKey(e).value.1;
    KeyExtends(f, more);
  }

  lemma BodyExtends(tag: Word, b: Bytes, more: Bytes)
    requires ParseBody(tag, b).Good?
    ensures var r := ParseBody(tag, b); ParseBody(tag, b + more) == Good(r.field, r.rest + more)
  {
    hide TakeLevel, TakeKey, TakeVarint64, TakeString, ParseNewFile;
    if tag == 1 {
      StringExtends(b, more);
    } else if tag == 5 {
      LevelExtends(b, more);
      KeyExtends(TakeLevel(b).value.1, more);
    } else if tag == 6 {
      LevelExtends(b, more);
      Varint64Extends(TakeLevel(b).value.1, more);
    } else if tag == 7 {
      NewFileExtends(b, more);
    } else {
      Varint64Extends(b, more);
    }
  }

  /** A field that can be read is read the same whatever follows it, and no other field stands there. */
  lemma FieldExtends(input: Bytes, more: Bytes)
    requires ParseField(input).Good?
    ensures var r := ParseField(input); ParseField(input + more) == Good(r.field, r.rest + more)
  {
    hide TakeVarint32, ParseBody;
    Varint32Extends(input, more);
    BodyExtends(TakeVarint32(input).value.0, TakeVarint32(input).value.1, more);
  }

  /** A field cut anywhere inside is an error. */
  lemma CutFieldFails(e: Edit, f: Field, n: nat)
    requires f.Valid() && 0 < n < |Encode(f)|
    ensures DecodeAll(e, Encode(f)[..n]) == None
  {
    hide Encode, ParseField;
    var cut, tail := Encode(f)[..n], Encode(f)[n..];
    assert cut + tail == Encode(f) && Encode(f) + [] == Encode(f);
    FieldRoundTrip(f, []);
    if ParseField(cut).Good? {
      FieldExtends(cut, tail);
    }
  }

  /** No field has another tag than 1 to 7 and 9, and none names a level that does not exist. */
  lemma BadFieldFails(e: Edit, tag: Word, level: Word, body: Bytes)
    requires tag < 128
    ensures tag !in {1, 2, 3, 4, 5, 6, 7, 9} ==> DecodeAll(e, [tag] + body) == None
    ensures tag in {5, 6, 7} && level >= NUM_LEVELS ==> DecodeAll(e, [tag] + (Varint(level) + body)) == None
  {
    hide TakeVarint32, TakeVarint64, TakeKey, TakeString, Varint;
    OneByteTag(tag, body);
    OneByteTag(tag, Varint(level) + body);
    Varint32Taken(level, body);
  }

  // k fields lie within the first m bytes, and no more.
  ghost predicate WholeFields(fields: seq<Field>, m: nat, k: nat) {
    && k <= |fields| && |EncodeAll(fields[..k])| <= m
    && (k < |fields| ==> m < |EncodeAll(fields[..k + 1])|)
  }

  /** An edit of which only the first m bytes are there is accepted if and only if the cut falls
      between two fields. */
  lemma {:induction false} CutEdit(e: Edit, fields: seq<Field>, m: nat) returns (k: nat)
    requires (forall i :: 0 <= i < |fields| ==> fields[i].Valid()) && m <= |EncodeAll(fields)|
    ensures WholeFields(fields, m, k)
    ensures DecodeAll(e, EncodeAll(fields)[..m]) ==
            if m == |EncodeAll(fields[..k])| then Some(ApplyAll(e, fields[..k])) else None
    decreases fields
  {
    hide Encode, Apply, ParseField;
    NothingParsed();
    if fields == [] {
      k := 0;
      return;
    }
    var first, rest := Encode(fields[0]), EncodeAll(fields[1..]);
    if m < |first| {
      k := 0;
      FirstField(fields);
      assert (first + rest)[..m] == first[..m];
      if m > 0 {
        CutFieldFails(e, fields[0], m);
      }
    } else {
      k := CutEdit(Apply(e, fields[0]), fields[1..], m - |first|);
      FieldRoundTrip(fields[0], rest[..m - |first|]);
      assert (first + rest)[..m] == first + rest[..m - |first|];
      OneMoreField(fields, k);
      if k < |fields[1..]| {
        OneMoreField(fields, k + 1);
      }
      k := k + 1;
    }
  }

  lemma FirstField(fields: seq<Field>)
    requires fields != []
    ensures EncodeAll(fields[..0]) == [] && EncodeAll(fields[..1]) == Encode(fields[0])
  {
    hide Encode;
    assert fields[..1] == [fields[0]] && fields[..0] == [] && [fields[0]][1..] == [];
  }

  lemma OneMoreField(fields: seq<Field>, k: nat)
    requires k < |fields|
    ensures fields[..k + 1][0] == fields[0] && fields[..k + 1][1..] == fields[1..][..k]
    ensures EncodeAll(fields[..k + 1]) == Encode(fields[0]) + EncodeAll(fields[1..][..k])
  {
    hide Encode;
    assert fields[..k + 1][1..] == fields[1..][..k];
  }
}
