/**
 The items scripts/gen_wasm_fixtures.py puts into its sections: names in UTF-8, function
 types, imports, exports, memories and code bodies.  Each is undone by a decoder of the
 binary format of the WebAssembly Core Specification, whatever follows it, and so are the
 vectors and sections made of them.  A Dafny string is a sequence of Unicode scalar values,
 which is what Python's encode accepts.
 */
module WasmItems {
  import opened Options
  import opened Leb128

  // ---------------------------------------------------------------------------
  // UTF-8
  // ---------------------------------------------------------------------------

  function Utf8(c: char): (b: seq<byte>)
    ensures 1 <= |b| <= 4
  {
    var n := c as int;
    if n < 0x80 then [n]
    else if n < 0x800 then [0xC0 + n / 64, 0x80 + n % 64]
    else if n < 0x10000 then [0xE0 + n / 4096, 0x80 + n / 64 % 64, 0x80 + n % 64]
    else [0xF0 + n / 262144, 0x80 + n / 4096 % 64, 0x80 + n / 64 % 64, 0x80 + n % 64]
  }

  predicate Scalar(n: int) { 0 <= n < 0xD800 || 0xE000 <= n < 0x110000 }

  predicate Continues(b: byte) { 0x80 <= b < 0xC0 }

  // A scalar value that needs the form it is in: shorter forms are the only ones for smaller values.
  function AsChar(n: int, least: int, rest: seq<byte>): Option<Decoded<char>> {
    if Scalar(n) && n >= least then Some(Decoded(n as char, rest)) else None
  }

  function Above(b: byte, base: int): int { b as int - base }

  function DecodeChar(s: seq<byte>): Option<Decoded<char>> {
    if s == [] then None
    else if s[0] < 0x80 then AsChar(s[0], 0, s[1..])
    else if 0xC0 <= s[0] < 0xE0 && |s| >= 2 && Continues(s[1]) then
      AsChar(Above(s[0], 0xC0) * 64 + Above(s[1], 0x80), 0x80, s[2..])
    else if 0xE0 <= s[0] < 0xF0 && |s| >= 3 && Continues(s[1]) && Continues(s[2]) then
      AsChar(Above(s[0], 0xE0) * 4096 + Above(s[1], 0x80) * 64 + Above(s[2], 0x80), 0x800, s[3..])
    else if 0xF0 <= s[0] < 0xF8 && |s| >= 4 && Continues(s[1]) && Continues(s[2]) && Continues(s[3]) then
      AsChar(Above(s[0], 0xF0) * 262144 + Above(s[1], 0x80) * 4096 + Above(s[2], 0x80) * 64 + Above(s[3], 0x80), 0x10000, s[4..])
    else None
  }

  lemma SixBits(n: nat)
    ensures n / 64 * 64 + n % 64 == n && n / 4096 * 64 + n / 64 % 64 == n / 64 && n / 262144 * 64 + n / 4096 % 64 == n / 4096
  {
  }

  lemma CharReadsBack(c: char, rest: seq<byte>)
    ensures DecodeChar(Utf8(c) + rest) == Some(Decoded(c, rest))
  {
    var n := c as int;
    var code := Utf8(c);
    var s := code + rest;
    assert s[|code|..] == rest && s[0] == code[0];
    if n < 0x80 {
    } else if n < 0x800 {
      assert s[1] == code[1];
    } else if n < 0x10000 {
      SixBits(n);
      assert s[1] == code[1] && s[2] == code[2];
    } else {
      SixBits(n);
      assert s[1] == code[1] && s[2] == code[2] && s[3] == code[3];
    }
  }

  // Only the encoding of a character decodes to it.
  lemma OnlyEncodingDecodes(s: seq<byte>)
    requires DecodeChar(s).Some?
    ensures Utf8(DecodeChar(s).value.value) + DecodeChar(s).value.rest == s
  {
    var n := DecodeChar(s).value.value as int;
    var k := if s[0] < 0x80 then 1 else if s[0] < 0xE0 then 2 else if s[0] < 0xF0 then 3 else 4;
    assert s == s[..k] + s[k..];
    if k == 2 {
      SixBitParts(n, 0, 0, Above(s[0], 0xC0), Above(s[1], 0x80));
    } else if k == 3 {
      SixBitParts(n, 0, Above(s[0], 0xE0), Above(s[1], 0x80), Above(s[2], 0x80));
    } else if k == 4 {
      SixBitParts(n, Above(s[0], 0xF0), Above(s[1], 0x80), Above(s[2], 0x80), Above(s[3], 0x80));
    }
    assert Utf8(n as char) == s[..k];
  }

  lemma SixBitParts(n: int, a: int, b: int, c: int, d: int)
    requires 0 <= a && 0 <= b < 64 && 0 <= c < 64 && 0 <= d < 64 && n == a * 262144 + b * 4096 + c * 64 + d
    ensures n % 64 == d && n / 64 % 64 == c && n / 4096 % 64 == b && n / 262144 == a
    ensures a == 0 ==> n / 4096 == b && (b == 0 ==> n / 64 == c)
  {
    assert n / 64 == a * 4096 + b * 64 + c;
    assert n / 4096 == a * 64 + b;
  }

  function Utf8All(s: string): seq<byte> { if s == "" then [] else Utf8(s[0]) + Utf8All(s[1..]) }

  function DecodeChars(b: seq<byte>): Option<string>
    decreases |b|
  {
    if b == [] then Some("")
    else
      match DecodeChar(b)
      case None => None
      case Some(d) =>
        if |d.rest| >= |b| then None
        else
          match DecodeChars(d.rest)
          case None => None
          case Some(t) => Some([d.value] + t)
  }

  lemma {:induction false} TextReadsBack(s: string)
    ensures DecodeChars(Utf8All(s)) == Some(s)
    decreases |s|
  {
    hide Utf8, DecodeChar;
    if s != "" {
      CharReadsBack(s[0], Utf8All(s[1..]));
      TextReadsBack(s[1..]);
      assert [s[0]] + s[1..] == s;
    }
  }

  // ---------------------------------------------------------------------------
  // Items
  // ---------------------------------------------------------------------------

  // name(s)
  function Text(s: string): seq<byte> { Name(Utf8All(s)) }

  function DecodeText(s: seq<byte>): Option<Decoded<string>> {
    match DecodeName(s)
    case None => None
    case Some(d) =>
      match DecodeChars(d.value)
      case None => None
      case Some(t) => Some(Decoded(t, d.rest))
  }

  // The bytes of a string, its length in front, read back to the string.
  lemma {:induction false} TextRoundTrip(s: string, rest: seq<byte>)
    ensures DecodeText(Text(s) + rest) == Some(Decoded(s, rest))
  {
    hide DecodeName, Name, DecodeChars, Utf8All;
    NameRoundTrip(Utf8All(s), rest);
    TextReadsBack(s);
  }

  function One(b: byte): seq<byte> { [b] }

  function DecodeOne(s: seq<byte>): Option<Decoded<byte>> { if s == [] then None else Some(Decoded(s[0], s[1..])) }

  lemma OneUndone()
    ensures Undoes(DecodeOne, One)
  {
    forall b: byte, rest: seq<byte> ensures DecodeOne(One(b) + rest) == Some(Decoded(b, rest)) {
      assert ([b] + rest)[1..] == rest;
    }
  }

  function Bytes(bs: seq<byte>): seq<byte> { Vec(EncodeAll(One, bs)) }

  function DecodeBytes(s: seq<byte>): Option<Decoded<seq<byte>>> { DecodeVec(DecodeOne, s) }

  lemma BytesRoundTrip(bs: seq<byte>, rest: seq<byte>)
    ensures DecodeBytes(Bytes(bs) + rest) == Some(Decoded(bs, rest))
  {
    OneUndone();
    VecRoundTrip(DecodeOne, One, bs, rest);
  }

  datatype FuncType = FuncType(params: seq<byte>, results: seq<byte>)

  const TYPE_FUNC: byte := 0x60

  function EncodeFuncType(f: FuncType): seq<byte> { [TYPE_FUNC] + Bytes(f.params) + Bytes(f.results) }

  function DecodeFuncType(s: seq<byte>): Option<Decoded<FuncType>> {
    if s == [] || s[0] != TYPE_FUNC then None
    else
      match DecodeBytes(s[1..])
      case None => None
      case Some(p) =>
        match DecodeBytes(p.rest)
        case None => None
        case Some(r) => Some(Decoded(FuncType(p.value, r.value), r.rest))
  }

  lemma {:induction false} FuncTypeRoundTrip(f: FuncType, rest: seq<byte>)
    ensures DecodeFuncType(EncodeFuncType(f) + rest) == Some(Decoded(f, rest))
  {
    hide Bytes, DecodeBytes;
    var tail := Bytes(f.params) + (Bytes(f.results) + rest);
    assert EncodeFuncType(f) + rest == [TYPE_FUNC] + tail && ([TYPE_FUNC] + tail)[1..] == tail;
    BytesRoundTrip(f.params, Bytes(f.results) + rest);
    BytesRoundTrip(f.results, rest);
  }

  datatype Import = Import(modname: string, field: string, typeIdx: nat)

  const KIND_FUNC: byte := 0

  function EncodeImport(i: Import): seq<byte> { Text(i.modname) + Text(i.field) + [KIND_FUNC] + EncodeU(i.typeIdx) }

  function DecodeImport(s: seq<byte>): Option<Decoded<Import>> {
    match DecodeText(s)
    case None => None
    case Some(m) =>
      match DecodeText(m.rest)
      case None => None
      case Some(f) =>
        if f.rest == [] || f.rest[0] != KIND_FUNC then None
        else
          match DecodeU(f.rest[1..])
          case None => None
          case Some(t) => Some(Decoded(Import(m.value, f.value, t.value), t.rest))
  }

  lemma {:induction false} ImportRoundTrip(i: Import, rest: seq<byte>)
    ensures DecodeImport(EncodeImport(i) + rest) == Some(Decoded(i, rest))
  {
    hide Text, DecodeText, EncodeU, DecodeU;
    var idx := EncodeU(i.typeIdx) + rest;
    var kind := [KIND_FUNC] + idx;
    assert EncodeImport(i) + rest == Text(i.modname) + (Text(i.field) + kind) && kind[1..] == idx;
    TextRoundTrip(i.modname, Text(i.field) + kind);
    TextRoundTrip(i.field, kind);
    UnsignedRoundTrip(i.typeIdx, rest);
  }

  datatype Export = Export(field: string, kind: byte, idx: nat)

  function EncodeExport(e: Export): seq<byte> { Text(e.field) + [e.kind] + EncodeU(e.idx) }

  function DecodeExport(s: seq<byte>): Option<Decoded<Export>> {
    match DecodeText(s)
    case None => None
    case Some(f) =>
      if f.rest == [] then None
      else
        match DecodeU(f.rest[1..])
        case None => None
        case Some(i) => Some(Decoded(Export(f.value, f.rest[0], i.value), i.rest))
  }

  lemma {:induction false} ExportRoundTrip(e: Export, rest: seq<byte>)
    ensures DecodeExport(EncodeExport(e) + rest) == Some(Decoded(e, rest))
  {
    hide Text, DecodeText, EncodeU, DecodeU;
    var idx := EncodeU(e.idx) + rest;
    var kind := [e.kind] + idx;
    assert EncodeExport(e) + rest == Text(e.field) + kind && kind[1..] == idx;
    TextRoundTrip(e.field, kind);
    UnsignedRoundTrip(e.idx, rest);
  }

  datatype Memory = Memory(min: nat, max: Option<nat>)

  function EncodeMemory(m: Memory): seq<byte> {
    match m.max
    case None => [0] + EncodeU(m.min)
    case Some(max) => [1] + EncodeU(m.min) + EncodeU(max)
  }

  function DecodeMemory(s: seq<byte>): Option<Decoded<Memory>> {
    if s == [] || s[0] > 1 then None
    else
      match DecodeU(s[1..])
      case None => None
      case Some(lo) =>
        if s[0] == 0 then Some(Decoded(Memory(lo.value, None), lo.rest))
        else
          match DecodeU(lo.rest)
          case None => None
          case Some(hi) => Some(Decoded(Memory(lo.value, Some(hi.value)), hi.rest))
  }

  lemma {:induction false} MemoryRoundTrip(m: Memory, rest: seq<byte>)
    ensures DecodeMemory(EncodeMemory(m) + rest) == Some(Decoded(m, rest))
  {
    hide EncodeU, DecodeU;
    var s := EncodeMemory(m) + rest;
    var tail := if m.max.None? then rest else EncodeU(m.max.value) + rest;
    assert s[1..] == EncodeU(m.min) + tail;
    UnsignedRoundTrip(m.min, tail);
    if m.max.Some? { UnsignedRoundTrip(m.max.value, rest); }
  }

  // A code entry without locals: its size, no local groups, the instructions and the end opcode.
  const OP_END: byte := 0x0B

  function EncodeCode(body: seq<byte>): seq<byte> { Name(EncodeU(0) + body + [OP_END]) }

  function DecodeCode(s: seq<byte>): Option<Decoded<seq<byte>>> {
    match DecodeName(s)
    case None => None
    case Some(d) =>
      var b := d.value;
      if |b| < 2 || b[0] != 0 || b[|b| - 1] != OP_END then None else Some(Decoded(b[1..|b| - 1], d.rest))
  }

  lemma {:induction false} CodeRoundTrip(body: seq<byte>, rest: seq<byte>)
    ensures DecodeCode(EncodeCode(body) + rest) == Some(Decoded(body, rest))
  {
    hide DecodeName, Name;
    assert EncodeU(0) == [0];
    var b := EncodeU(0) + body + [OP_END];
    NameRoundTrip(b, rest);
    assert b[1..|b| - 1] == body;
  }

  // An active data segment: memory 0 has a shorter form; the offset is a constant expression.
  datatype Data = Data(mem: nat, offset: int, payload: seq<byte>)

  const OP_I32_CONST: byte := 0x41

  function OffsetExpr(n: int): seq<byte> { [OP_I32_CONST] + EncodeS(n) + [OP_END] }

  function DecodeOffset(s: seq<byte>): Option<Decoded<int>> {
    if s == [] || s[0] != OP_I32_CONST then None
    else
      match DecodeS(s[1..])
      case None => None
      case Some(d) => if d.rest == [] || d.rest[0] != OP_END then None else Some(Decoded(d.value, d.rest[1..]))
  }

  lemma {:induction false} OffsetRoundTrip(n: int, rest: seq<byte>)
    ensures DecodeOffset(OffsetExpr(n) + rest) == Some(Decoded(n, rest))
  {
    hide EncodeS, DecodeS;
    var tail := EncodeS(n) + ([OP_END] + rest);
    assert OffsetExpr(n) + rest == [OP_I32_CONST] + tail && ([OP_I32_CONST] + tail)[1..] == tail;
    SignedRoundTrip(n, [OP_END] + rest);
    assert ([OP_END] + rest)[1..] == rest;
  }

  function EncodeData(d: Data): seq<byte> {
    (if d.mem == 0 then [0] else [2] + EncodeU(d.mem)) + OffsetExpr(d.offset) + Name(d.payload)
  }

  function DecodeDataTail(mem: nat, s: seq<byte>): Option<Decoded<Data>> {
    match DecodeOffset(s)
    case None => None
    case Some(o) =>
      match DecodeName(o.rest)
      case None => None
      case Some(p) => Some(Decoded(Data(mem, o.value, p.value), p.rest))
  }

  function DecodeData(s: seq<byte>): Option<Decoded<Data>> {
    if s == [] then None
    else if s[0] == 0 then DecodeDataTail(0, s[1..])
    else if s[0] == 2 then
      match DecodeU(s[1..])
      case None => None
      case Some(m) => DecodeDataTail(m.value, m.rest)
    else None
  }

  lemma {:induction false} DataRoundTrip(d: Data, rest: seq<byte>)
    ensures DecodeData(EncodeData(d) + rest) == Some(Decoded(d, rest))
  {
    hide OffsetExpr, DecodeOffset, Name, DecodeName, EncodeU, DecodeU;
    var tail := OffsetExpr(d.offset) + (Name(d.payload) + rest);
    OffsetRoundTrip(d.offset, Name(d.payload) + rest);
    NameRoundTrip(d.payload, rest);
    var s := EncodeData(d) + rest;
    if d.mem == 0 {
      assert s == [0] + tail && s[1..] == tail;
    } else {
      assert s == [2] + (EncodeU(d.mem) + tail) && s[1..] == EncodeU(d.mem) + tail;
      UnsignedRoundTrip(d.mem, tail);
    }
  }

  // ---------------------------------------------------------------------------
  // Vectors of items, and a module made of them
  // ---------------------------------------------------------------------------

  lemma ItemsUndone()
    ensures Undoes(DecodeFuncType, EncodeFuncType) && Undoes(DecodeImport, EncodeImport)
    ensures Undoes(DecodeExport, EncodeExport) && Undoes(DecodeMemory, EncodeMemory)
    ensures Undoes(DecodeCode, EncodeCode) && Undoes(DecodeData, EncodeData) && Undoes(DecodeU, EncodeU)
    ensures Undoes(DecodeText, Text) && Undoes(DecodeSection, EncodeSection)
  {
    hide DecodeData, EncodeData, DecodeU, EncodeU;
    hide DecodeFuncType, EncodeFuncType, DecodeImport, EncodeImport, DecodeExport, EncodeExport;
    hide DecodeMemory, EncodeMemory, DecodeCode, EncodeCode, DecodeText, Text, DecodeSection, EncodeSection;
    forall x, rest { FuncTypeRoundTrip(x, rest); }
    forall x, rest { ImportRoundTrip(x, rest); }
    forall x, rest { ExportRoundTrip(x, rest); }
    forall x, rest { MemoryRoundTrip(x, rest); }
    forall x, rest { CodeRoundTrip(x, rest); }
    forall x, rest { DataRoundTrip(x, rest); }
    forall x, rest { UnsignedRoundTrip(x, rest); }
    forall x, rest { TextRoundTrip(x, rest); }
    forall x, rest { SectionRoundTrip(x, rest); }
  }

  // A section that is a vector of items, as a decoder of its body to the end sees it.
  function DecodeBody<T(!new)>(dec: Decoder<T>, body: seq<byte>): Option<seq<T>> {
    match DecodeVec(dec, body)
    case None => None
    case Some(d) => if d.rest == [] then Some(d.value) else None
  }

  lemma BodyRoundTrip<T(!new)>(dec: Decoder<T>, enc: T -> seq<byte>, xs: seq<T>)
    requires Undoes(dec, enc)
    ensures DecodeBody(dec, Vec(EncodeAll(enc, xs))) == Some(xs)
  {
    VecRoundTrip(dec, enc, xs, []);
    assert Vec(EncodeAll(enc, xs)) + [] == Vec(EncodeAll(enc, xs));
  }

  // The sections of the fixtures, in the order they are written; a fixture may leave out any of them.
  datatype Fixture = Fixture(
    types: Option<seq<FuncType>>, imports: Option<seq<Import>>, functions: Option<seq<nat>>, memories: Option<seq<Memory>>,
    exports: Option<seq<Export>>, code: Option<seq<seq<byte>>>, data: Option<seq<Data>>)

  // A section of items, if the fixture has it.
  function Part<T(!new)>(id: byte, enc: T -> seq<byte>, items: Option<seq<T>>): seq<Section> {
    if items.None? then [] else [Section(id, Vec(EncodeAll(enc, items.value)))]
  }

  function LateSections(f: Fixture): seq<Section> {
    Part(7, EncodeExport, f.exports) + (Part(10, EncodeCode, f.code) + Part(11, EncodeData, f.data))
  }

  function Sections(f: Fixture): seq<Section> {
    Part(1, EncodeFuncType, f.types)
    + (Part(2, EncodeImport, f.imports) + (Part(3, EncodeU, f.functions) + (Part(5, EncodeMemory, f.memories) + LateSections(f))))
  }

  // What a section list says about one section, and the sections behind it.
  datatype Taken<T> = Bad | Taken(items: Option<seq<T>>, rest: seq<Section>)

  function Take<T(!new)>(id: byte, dec: Decoder<T>, secs: seq<Section>): Taken<T> {
    if secs == [] || secs[0].id != id then Taken(None, secs)
    else
      match DecodeBody(dec, secs[0].body)
      case None => Bad
      case Some(xs) => Taken(Some(xs), secs[1..])
  }

  lemma TakePart<T(!new)>(id: byte, dec: Decoder<T>, enc: T -> seq<byte>, items: Option<seq<T>>, rest: seq<Section>)
    requires Undoes(dec, enc) && (rest != [] ==> rest[0].id != id)
    ensures Take(id, dec, Part(id, enc, items) + rest) == Taken(items, rest)
  {
    hide Vec, EncodeAll, DecodeBody, Undoes;
    if items.None? {
      assert [] + rest == rest;
    } else {
      BodyRoundTrip(dec, enc, items.value);
      var s := Part(id, enc, items) + rest;
      assert s[1..] == rest;
    }
  }

  // The sections from the exports on.
  datatype Late = Late(exports: Option<seq<Export>>, code: Option<seq<seq<byte>>>, data: Option<seq<Data>>)

  function DecodeLate(secs: seq<Section>): Option<Late> {
    var e := Take(7, DecodeExport, secs);
    if e.Bad? then None else
    var c := Take(10, DecodeCode, e.rest);
    if c.Bad? then None else
    var d := Take(11, DecodeData, c.rest);
    if d.Bad? || d.rest != [] then None else Some(Late(e.items, c.items, d.items))
  }

  function DecodeFixture(s: seq<byte>): Option<Fixture> {
    match DecodeModule(s)
    case None => None
    case Some(secs) =>
      var t := Take(1, DecodeFuncType, secs);
      if t.Bad? then None else
      var i := Take(2, DecodeImport, t.rest);
      if i.Bad? then None else
      var n := Take(3, DecodeU, i.rest);
      if n.Bad? then None else
      var m := Take(5, DecodeMemory, n.rest);
      if m.Bad? then None else
      match DecodeLate(m.rest)
      case None => None
      case Some(l) => Some(Fixture(t.items, i.items, n.items, m.items, l.exports, l.code, l.data))
  }

  // The sections from the one given on all have greater ids than the ones before.
  ghost predicate StartsAbove(secs: seq<Section>, id: int) { secs != [] ==> secs[0].id as int > id }

  lemma PartStarts<T(!new)>(id: byte, enc: T -> seq<byte>, items: Option<seq<T>>, rest: seq<Section>, below: int)
    requires below < id as int && StartsAbove(rest, id as int)
    ensures StartsAbove(Part(id, enc, items) + rest, below)
  {
    hide Vec, EncodeAll;
    if items.None? { assert [] + rest == rest; }
  }

  lemma LateRoundTrip(f: Fixture)
    ensures DecodeLate(LateSections(f)) == Some(Late(f.exports, f.code, f.data)) && StartsAbove(LateSections(f), 5)
  {
    hide Undoes, Part, Take, EncodeExport, DecodeExport, EncodeCode, DecodeCode, EncodeData, DecodeData;
    ItemsUndone();
    var s11 := Part(11, EncodeData, f.data);
    assert s11 + [] == s11;
    var s10 := Part(10, EncodeCode, f.code) + s11;
    PartStarts(11, EncodeData, f.data, [], 10);
    PartStarts(10, EncodeCode, f.code, s11, 7);
    PartStarts(7, EncodeExport, f.exports, s10, 5);
    TakePart(7, DecodeExport, EncodeExport, f.exports, s10);
    TakePart(10, DecodeCode, EncodeCode, f.code, s11);
    TakePart(11, DecodeData, EncodeData, f.data, []);
  }

  // A module of typed sections, with or without any of them, comes back from its bytes, item by item.
  lemma {:induction false} FixtureRoundTrip(f: Fixture)
    ensures DecodeFixture(EncodeModule(Sections(f))) == Some(f)
  {
    hide DecodeModule, EncodeModule, Undoes, Part, Take, DecodeLate, LateSections;
    hide DecodeFuncType, EncodeFuncType, DecodeImport, EncodeImport, DecodeU, EncodeU, DecodeMemory, EncodeMemory;
    ModuleRoundTrip(Sections(f));
    ItemsUndone();
    LateRoundTrip(f);
    var s7 := LateSections(f);
    var s5 := Part(5, EncodeMemory, f.memories) + s7;
    var s3 := Part(3, EncodeU, f.functions) + s5;
    var s2 := Part(2, EncodeImport, f.imports) + s3;
    assert Sections(f) == Part(1, EncodeFuncType, f.types) + s2;
    PartStarts(5, EncodeMemory, f.memories, s7, 3);
    PartStarts(3, EncodeU, f.functions, s5, 2);
    PartStarts(2, EncodeImport, f.imports, s3, 1);
    TakePart(1, DecodeFuncType, EncodeFuncType, f.types, s2);
    TakePart(2, DecodeImport, EncodeImport, f.imports, s3);
    TakePart(3, DecodeU, EncodeU, f.functions, s5);
    TakePart(5, DecodeMemory, EncodeMemory, f.memories, s7);
  }
}
