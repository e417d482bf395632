/**
 The WebAssembly binary encoders of scripts/gen_wasm_fixtures.py: LEB128 integers
 (section 5.2.2 of the WebAssembly Core Specification), vectors (5.1.3), names (5.2.4)
 and sections (5.5.2), with the decoders of the specification.  Every encoder is undone
 by its decoder whatever bytes follow, so framings nest and no two values share bytes.
 */
module Leb128 {
  import opened Options

  type byte = b: int | 0 <= b < 256

  // A decoded value and the bytes behind it.
  datatype Decoded<T> = Decoded(value: T, rest: seq<byte>)

  // ---------------------------------------------------------------------------
  // Unsigned
  // ---------------------------------------------------------------------------

  function EncodeU(n: nat): (s: seq<byte>)
    ensures |s| >= 1
  {
    if n < 128 then [n] else [n % 128 + 128] + EncodeU(n / 128)
  }

  method Leb128U(value: nat) returns (out: seq<byte>)
    ensures out == EncodeU(value)
  {
    out := [];
    var n := value;
    while true
      invariant n >= 0 && out + EncodeU(n) == EncodeU(value)
      decreases n
    {
      var b := n % 128;
      ghost var before := n;
      n := n / 128;
      if n != 0 {
        assert EncodeU(before) == [b + 128] + EncodeU(n);
        assert out + ([b + 128] + EncodeU(n)) == out + [b + 128] + EncodeU(n);
        out := out + [b + 128];
      } else {
        out := out + [b];
        return;
      }
    }
  }

  function DecodeU(s: seq<byte>): Option<Decoded<nat>> {
    if s == [] then None
    else if s[0] < 128 then Some(Decoded(s[0], s[1..]))
    else
      match DecodeU(s[1..])
      case None => None
      case Some(d) => Some(Decoded(s[0] - 128 + 128 * d.value, d.rest))
  }

  lemma {:induction false} UnsignedRoundTrip(n: nat, rest: seq<byte>)
    ensures DecodeU(EncodeU(n) + rest) == Some(Decoded(n, rest))
    decreases n
  {
    var s := EncodeU(n) + rest;
    if n < 128 {
      assert s[1..] == rest;
    } else {
      assert s[1..] == EncodeU(n / 128) + rest;
      UnsignedRoundTrip(n / 128, rest);
    }
  }

  // No byte string that decodes to n is shorter than its encoding.
  lemma {:induction false} UnsignedShortest(s: seq<byte>)
    requires DecodeU(s).Some?
    ensures |EncodeU(DecodeU(s).value.value)| + |DecodeU(s).value.rest| <= |s|
  {
    if s[0] >= 128 {
      var d := DecodeU(s[1..]).value;
      UnsignedShortest(s[1..]);
      var n := s[0] - 128 + 128 * d.value;
      assert n / 128 == d.value;
    }
  }

  // ---------------------------------------------------------------------------
  // Signed
  // ---------------------------------------------------------------------------

  // n % 128 and n / 128 are Python's n & 0x7F and n >> 7 for either sign.
  function EncodeS(n: int): (s: seq<byte>)
    ensures |s| >= 1
    decreases if n < 0 then -n else n
  {
    var b, m := n % 128, n / 128;
    if (m == 0 && b < 64) || (m == -1 && b >= 64) then [b] else [b + 128] + EncodeS(m)
  }

  // Another byte follows n's lowest seven bits.
  predicate MoreBytes(n: int) { !(n / 128 == 0 && n % 128 < 64) && !(n / 128 == -1 && n % 128 >= 64) }

  lemma ShiftShrinks(n: int)
    requires MoreBytes(n)
    ensures (if n / 128 < 0 then -(n / 128) else n / 128) < if n < 0 then -n else n
  {
  }

  lemma EncodeStep(n: int)
    ensures EncodeS(n) == if MoreBytes(n) then [n % 128 + 128] + EncodeS(n / 128) else [n % 128]
  {
  }

  method Leb128S(value: int) returns (out: seq<byte>)
    ensures out == EncodeS(value)
  {
    hide EncodeS, MoreBytes;
    out := [];
    var n := value;
    var more := true;
    while more
      invariant more ==> out + EncodeS(n) == EncodeS(value)
      invariant !more ==> out == EncodeS(value)
      decreases more, if n < 0 then -n else n
    {
      EncodeStep(n);
      if MoreBytes(n) {
        ShiftShrinks(n);
        assert out + ([n % 128 + 128] + EncodeS(n / 128)) == out + [n % 128 + 128] + EncodeS(n / 128);
        out := out + [n % 128 + 128];
      } else {
        out := out + [n % 128];
        more := false;
      }
      n := n / 128;
    }
  }

  function DecodeS(s: seq<byte>): Option<Decoded<int>> {
    if s == [] then None
    else if s[0] < 64 then Some(Decoded(s[0], s[1..]))
    else if s[0] < 128 then Some(Decoded((s[0] as int) - 128, s[1..]))
    else
      match DecodeS(s[1..])
      case None => None
      case Some(d) => Some(Decoded(s[0] - 128 + 128 * d.value, d.rest))
  }

  lemma {:induction false} SignedRoundTrip(n: int, rest: seq<byte>)
    ensures DecodeS(EncodeS(n) + rest) == Some(Decoded(n, rest))
    decreases if n < 0 then -n else n
  {
    var s := EncodeS(n) + rest;
    var b, m := n % 128, n / 128;
    if (m == 0 && b < 64) || (m == -1 && b >= 64) {
      assert s[1..] == rest;
    } else {
      assert s[1..] == EncodeS(m) + rest;
      SignedRoundTrip(m, rest);
    }
  }

  lemma {:induction false} SignedShortest(s: seq<byte>)
    requires DecodeS(s).Some?
    ensures |EncodeS(DecodeS(s).value.value)| + |DecodeS(s).value.rest| <= |s|
  {
    if s[0] >= 128 {
      var d := DecodeS(s[1..]).value;
      SignedShortest(s[1..]);
      var n := s[0] - 128 + 128 * d.value;
      assert n / 128 == d.value;
    } else {
      var n := DecodeS(s).value.value;
      assert -64 <= n < 64;
    }
  }

  // ---------------------------------------------------------------------------
  // Vectors, names, sections
  // ---------------------------------------------------------------------------

  function Concat(items: seq<seq<byte>>): seq<byte> { if items == [] then [] else items[0] + Concat(items[1..]) }

  function Vec(items: seq<seq<byte>>): seq<byte> { EncodeU(|items|) + Concat(items) }

  // A decoder for one kind of item, and an encoder it undoes in front of anything.
  type Decoder<!T(!new)> = seq<byte> -> Option<Decoded<T>>

  ghost predicate Undoes<T(!new)>(dec: Decoder<T>, enc: T -> seq<byte>) {
    forall x: T, rest: seq<byte> :: dec(enc(x) + rest) == Some(Decoded(x, rest))
  }

  function DecodeItems<T(!new)>(dec: Decoder<T>, n: nat, s: seq<byte>): Option<Decoded<seq<T>>> {
    if n == 0 then Some(Decoded([], s))
    else
      match dec(s)
      case None => None
      case Some(d) =>
        match DecodeItems(dec, n - 1, d.rest)
        case None => None
        case Some(ds) => Some(Decoded([d.value] + ds.value, ds.rest))
  }

  function DecodeVec<T(!new)>(dec: Decoder<T>, s: seq<byte>): Option<Decoded<seq<T>>> {
    match DecodeU(s)
    case None => None
    case Some(n) => DecodeItems(dec, n.value, n.rest)
  }

  function EncodeAll<T(!new)>(enc: T -> seq<byte>, xs: seq<T>): (items: seq<seq<byte>>)
    ensures |items| == |xs|
  {
    if xs == [] then [] else [enc(xs[0])] + EncodeAll(enc, xs[1..])
  }

  lemma {:induction false} ItemsRoundTrip<T(!new)>(dec: Decoder<T>, enc: T -> seq<byte>, xs: seq<T>, rest: seq<byte>)
    requires Undoes(dec, enc)
    ensures DecodeItems(dec, |xs|, Concat(EncodeAll(enc, xs)) + rest) == Some(Decoded(xs, rest))
    decreases |xs|
  {
    if xs == [] {
      assert Concat(EncodeAll(enc, xs)) + rest == rest;
    } else {
      var items := EncodeAll(enc, xs);
      var later := Concat(EncodeAll(enc, xs[1..])) + rest;
      assert items[1..] == EncodeAll(enc, xs[1..]);
      assert Concat(items) + rest == enc(xs[0]) + later;
      ItemsRoundTrip(dec, enc, xs[1..], rest);
      assert [xs[0]] + xs[1..] == xs;
    }
  }

  lemma {:induction false} VecRoundTrip<T(!new)>(dec: Decoder<T>, enc: T -> seq<byte>, xs: seq<T>, rest: seq<byte>)
    requires Undoes(dec, enc)
    ensures DecodeVec(dec, Vec(EncodeAll(enc, xs)) + rest) == Some(Decoded(xs, rest))
  {
    var items := EncodeAll(enc, xs);
    assert Vec(items) + rest == EncodeU(|xs|) + (Concat(items) + rest);
    UnsignedRoundTrip(|xs|, Concat(items) + rest);
    ItemsRoundTrip(dec, enc, xs, rest);
  }

  // A length-prefixed byte string: the framing of names (of their UTF-8 bytes) and of section bodies.
  function Name(b: seq<byte>): seq<byte> { EncodeU(|b|) + b }

  function DecodeName(s: seq<byte>): Option<Decoded<seq<byte>>> {
    match DecodeU(s)
    case None => None
    case Some(n) => if n.value > |n.rest| then None else Some(Decoded(n.rest[..n.value], n.rest[n.value..]))
  }

  lemma {:induction false} NameRoundTrip(b: seq<byte>, rest: seq<byte>)
    ensures DecodeName(Name(b) + rest) == Some(Decoded(b, rest))
  {
    assert Name(b) + rest == EncodeU(|b|) + (b + rest);
    UnsignedRoundTrip(|b|, b + rest);
    assert (b + rest)[..|b|] == b && (b + rest)[|b|..] == rest;
  }

  datatype Section = Section(id: byte, body: seq<byte>)

  function EncodeSection(s: Section): seq<byte> { [s.id] + EncodeU(|s.body|) + s.body }

  function DecodeSection(s: seq<byte>): Option<Decoded<Section>> {
    if s == [] then None
    else
      match DecodeName(s[1..])
      case None => None
      case Some(d) => Some(Decoded(Section(s[0], d.value), d.rest))
  }

  lemma {:induction false} SectionRoundTrip(x: Section, rest: seq<byte>)
    ensures DecodeSection(EncodeSection(x) + rest) == Some(Decoded(x, rest))
  {
    var s := EncodeSection(x) + rest;
    assert s == [x.id] + (Name(x.body) + rest) && s[1..] == Name(x.body) + rest;
    NameRoundTrip(x.body, rest);
  }

  const HEADER: seq<byte> := [0x00, 0x61, 0x73, 0x6D, 1, 0, 0, 0]

  function EncodeModule(sections: seq<Section>): seq<byte> { HEADER + Concat(EncodeAll(EncodeSection, sections)) }

  // Sections up to the end of the module.
  function DecodeSections(s: seq<byte>): Option<seq<Section>>
    decreases |s|
  {
    if s == [] then Some([])
    else
      match DecodeSection(s)
      case None => None
      case Some(d) =>
        if |d.rest| >= |s| then None
        else
          match DecodeSections(d.rest)
          case None => None
          case Some(ds) => Some([d.value] + ds)
  }

  function DecodeModule(s: seq<byte>): Option<seq<Section>> {
    if HEADER <= s then DecodeSections(s[|HEADER|..]) else None
  }

  // A module's sections come back one by one, in order, and so no two section lists share their bytes.
  lemma {:induction false} ModuleRoundTrip(sections: seq<Section>)
    ensures DecodeModule(EncodeModule(sections)) == Some(sections)
  {
    assert EncodeModule(sections)[|HEADER|..] == Concat(EncodeAll(EncodeSection, sections));
    SectionsRoundTrip(sections);
  }

  lemma {:induction false} SectionsRoundTrip(sections: seq<Section>)
    ensures DecodeSections(Concat(EncodeAll(EncodeSection, sections))) == Some(sections)
    decreases |sections|
  {
    if sections != [] {
      var items := EncodeAll(EncodeSection, sections);
      var later := Concat(EncodeAll(EncodeSection, sections[1..]));
      assert items[1..] == EncodeAll(EncodeSection, sections[1..]);
      assert Concat(items) == EncodeSection(sections[0]) + later;
      SectionRoundTrip(sections[0], later);
      SectionsRoundTrip(sections[1..]);
      assert [sections[0]] + sections[1..] == sections;
    }
  }

  lemma {:induction false} ModulesAreDistinct(a: seq<Section>, b: seq<Section>)
    requires EncodeModule(a) == EncodeModule(b)
    ensures a == b
  {
    ModuleRoundTrip(a);
    ModuleRoundTrip(b);
  }
}
