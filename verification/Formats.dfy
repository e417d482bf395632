/**
 What kernel/vsnprintf.c prints, without the buffer: a format and its arguments give
 an unbounded text.  Formats are also given a structure of their own (Piece), with a
 meaning that never scans characters, and the scanner is proved to recover it.
 */
module Formats {
  import opened Numerals
  import opened Options

  const INT_MAX := 0x7FFF_FFFF

  // A variadic argument: a machine word, or a string pointer that may be null.
  datatype Arg = Num(v: int) | Str(s: Option<string>)

  function AsUlong(v: int): nat { v % 0x1_0000_0000_0000_0000 }

  function AsLong(v: int): int {
    var u := AsUlong(v);
    if u < 0x8000_0000_0000_0000 then u else u - 0x1_0000_0000_0000_0000
  }

  function AsUint(v: int): nat { v % 0x1_0000_0000 }

  function AsInt(v: int): int {
    var u := AsUint(v);
    if u < 0x8000_0000 then u else u - 0x1_0000_0000
  }

  datatype Flags = Flags(zero: bool, left: bool, plus: bool, space: bool)

  const NO_FLAGS := Flags(false, false, false, false)

  function AddFlag(f: Flags, c: char): Flags {
    if c == '0' then f.(zero := true)
    else if c == '-' then f.(left := true)
    else if c == '+' then f.(plus := true)
    else f.(space := true)
  }

  predicate IsFlag(c: char) { c in "0-+ " }

  predicate IsDecimal(c: char) { '0' <= c <= '9' }

  // ---------------------------------------------------------------------------
  // Fields
  // ---------------------------------------------------------------------------

  function Justified(body: string, width: int, left: bool): string {
    if left then body + Repeat(' ', width - |body|) else Repeat(' ', width - |body|) + body
  }

  function StrText(s: Option<string>, max: int): string {
    var t := if s.None? then "(null)" else s.value;
    if 0 <= max < |t| then t[..max] else t
  }

  function StrField(s: Option<string>, max: int, width: int, f: Flags): string {
    Justified(StrText(s, max), width, f.left)
  }

  function UintField(v: nat, base: nat, width: int, f: Flags): string
    requires IsBase(base)
  {
    if f.zero && !f.left then Repeat('0', width - |Digits(v, base)|) + Digits(v, base)
    else Justified(Digits(v, base), width, f.left)
  }

  function Sign(v: int, f: Flags): string {
    if v < 0 then "-" else if f.plus then "+" else if f.space then " " else ""
  }

  function Abs(v: int): nat { if v < 0 then -v else v }

  // Zeros go between the sign and the digits.
  function IntField(v: int, width: int, f: Flags): string {
    var sign, digits := Sign(v, f), Digits(Abs(v), 10);
    if f.zero && !f.left then sign + Repeat('0', width - |sign| - |digits|) + digits
    else Justified(sign + digits, width, f.left)
  }

  function PtrField(p: nat): string { "0x" + Padded(p, 16, 16) }

  function CharField(c: char, width: int, f: Flags): string { Justified([c], width, f.left) }

  // ---------------------------------------------------------------------------
  // Scanning a format
  // ---------------------------------------------------------------------------

  // The character a C format pointer sees; the terminator past the end.
  function Peek(s: string): char { if s == "" then '\0' else s[0] }

  function ScanFlags(s: string, f: Flags): (Flags, string) {
    if s != "" && IsFlag(s[0]) then ScanFlags(s[1..], AddFlag(f, s[0])) else (f, s)
  }

  function ScanNumber(s: string, acc: nat): (nat, string) {
    if s != "" && IsDecimal(s[0]) then ScanNumber(s[1..], acc * 10 + DigitValue(s[0])) else (acc, s)
  }

  function ScanLongs(s: string, long: bool): (bool, string) {
    if s != "" && s[0] == 'l' then ScanLongs(s[1..], true) else (long, s)
  }

  // What is known once the conversion character has been reached; rest starts with it.
  datatype Spec = Spec(flags: Flags, width: nat, precision: int, long: bool, rest: string, args: seq<Arg>)

  // A width, with the flags it may add: digits, or '*' and an int argument.  None is behaviour C
  // leaves undefined: a missing or mistyped argument, or a number outside int.
  function ScanWidth(f: Flags, s: string, args: seq<Arg>): Option<Spec> {
    if Peek(s) == '*' then
      if args == [] || !args[0].Num? || AsInt(args[0].v) == -INT_MAX - 1 then None
      else
        var w := AsInt(args[0].v);
        Some(Spec(if w < 0 then f.(left := true) else f, Abs(w), -1, false, s[1..], args[1..]))
    else
      var (w, r) := ScanNumber(s, 0);
      if w > INT_MAX then None else Some(Spec(f, w, -1, false, r, args))
  }

  function ScanPrecision(p: Spec): Option<Spec> {
    if Peek(p.rest) != '.' then Some(p)
    else if Peek(p.rest[1..]) == '*' then
      if p.args == [] || !p.args[0].Num? then None
      else Some(p.(precision := AsInt(p.args[0].v), rest := p.rest[2..], args := p.args[1..]))
    else
      var (n, r) := ScanNumber(p.rest[1..], 0);
      if n > INT_MAX then None else Some(p.(precision := n, rest := r))
  }

  // Everything between '%' and the conversion character.
  function ScanSpec(s: string, args: seq<Arg>): Option<Spec> {
    var (f, r) := ScanFlags(s, NO_FLAGS);
    match ScanWidth(f, r, args)
    case None => None
    case Some(w) =>
      match ScanPrecision(w)
      case None => None
      case Some(p) =>
        var (long, tail) := ScanLongs(p.rest, false);
        Some(p.(long := long, rest := tail))
  }

  // ---------------------------------------------------------------------------
  // Converting and rendering
  // ---------------------------------------------------------------------------

  // Text produced and the arguments left over.
  datatype Rendered = Rendered(text: string, args: seq<Arg>)

  predicate TakesNumber(conv: char) { conv in "diuxpc" }

  predicate CString(s: string) { '\0' !in s && |s| <= INT_MAX }

  function NumberField(p: Spec, conv: char, v: int): string
    requires TakesNumber(conv)
  {
    match conv
    case 'u' => UintField(if p.long then AsUlong(v) else AsUint(v), 10, p.width, p.flags)
    case 'x' => UintField(if p.long then AsUlong(v) else AsUint(v), 16, p.width, p.flags)
    case 'p' => PtrField(AsUlong(v))
    case 'c' => CharField((AsUint(v) % 256) as char, p.width, p.flags)
    case _ => IntField(if p.long then AsLong(v) else AsInt(v), p.width, p.flags)
  }

  // One conversion; characters that are none are echoed after the '%'.
  function Convert(p: Spec, conv: char): Option<Rendered> {
    if TakesNumber(conv) then
      if p.args == [] || !p.args[0].Num? then None
      else Some(Rendered(NumberField(p, conv, p.args[0].v), p.args[1..]))
    else if conv == 's' then
      if p.args == [] || !p.args[0].Str? || (p.args[0].s.Some? && !CString(p.args[0].s.value)) then None
      else Some(Rendered(StrField(p.args[0].s, p.precision, p.width, p.flags), p.args[1..]))
    else if conv == '%' then Some(Rendered("%", p.args))
    else Some(Rendered(['%', conv], p.args))
  }

  lemma ScanFlagsShrinks(s: string, f: Flags)
    ensures |ScanFlags(s, f).1| <= |s|
  {
  }

  lemma ScanNumberShrinks(s: string, acc: nat)
    ensures |ScanNumber(s, acc).1| <= |s|
  {
  }

  lemma ScanLongsShrinks(s: string, long: bool)
    ensures |ScanLongs(s, long).1| <= |s|
  {
  }

  lemma ScanSpecShrinks(s: string, args: seq<Arg>)
    ensures ScanSpec(s, args).Some? ==> |ScanSpec(s, args).value.rest| <= |s|
  {
    var (f, r) := ScanFlags(s, NO_FLAGS);
    ScanFlagsShrinks(s, NO_FLAGS);
    ScanNumberShrinks(r, 0);
    if ScanWidth(f, r, args).Some? {
      var w := ScanWidth(f, r, args).value;
      if w.rest != "" { ScanNumberShrinks(w.rest[1..], 0); }
      if ScanPrecision(w).Some? { ScanLongsShrinks(ScanPrecision(w).value.rest, false); }
    }
  }

  // The text of a format; a format that ends inside a directive ends there.
  function Render(s: string, args: seq<Arg>): Option<Rendered>
    decreases |s|
  {
    if s == "" then Some(Rendered("", args))
    else if s[0] != '%' then Prepend([s[0]], Render(s[1..], args))
    else
      ScanSpecShrinks(s[1..], args);
      match ScanSpec(s[1..], args)
      case None => None
      case Some(p) =>
        if p.rest == "" then Some(Rendered("", p.args))
        else
          match Convert(p, p.rest[0])
          case None => None
          case Some(c) => Prepend(c.text, Render(p.rest[1..], c.args))
  }

  function Prepend(t: string, r: Option<Rendered>): Option<Rendered> {
    if r.None? then None else Some(Rendered(t + r.value.text, r.value.args))
  }

  // ---------------------------------------------------------------------------
  // Formats with structure
  // ---------------------------------------------------------------------------

  // A width or precision: none, decimal digits as they stand in the text, or a star.
  datatype Amount = Absent | Written(digits: string) | Starred

  // A character other than '%', or a directive.
  datatype Piece = Lit(c: char) | Dir(flags: string, width: Amount, precision: Amount, longs: nat, conv: char)

  ghost predicate AllDecimal(s: string) { forall i :: 0 <= i < |s| ==> IsDecimal(s[i]) }

  // The parts of a directive before its conversion.
  ghost predicate GoodParts(p: Piece) {
    && p.Dir? && (forall c :: c in p.flags ==> IsFlag(c))
    && (p.width.Written? ==> p.width.digits != "" && AllDecimal(p.width.digits) && p.width.digits[0] != '0')
    && (p.precision.Written? ==> AllDecimal(p.precision.digits))
  }

  // The character is none that the last part before it would have taken as its own.
  predicate EndsParts(p: Piece, c: char)
    requires p.Dir?
  {
    && c != 'l'
    && (p.longs == 0 ==>
          match p.precision
          case Written(digits) => !IsDecimal(c) && (digits == "" ==> c != '*')
          case Starred => true
          case Absent =>
            && c != '.'
            && match p.width
               case Written(_) => !IsDecimal(c)
               case Starred => true
               case Absent => !IsDecimal(c) && c != '*' && !IsFlag(c))
  }

  ghost predicate WellFormed(p: Piece) {
    match p
    case Lit(c) => c != '%'
    case Dir(_, _, _, _, conv) => GoodParts(p) && EndsParts(p, conv)
  }

  function AmountText(a: Amount): string {
    match a
    case Absent => ""
    case Written(digits) => digits
    case Starred => "*"
  }

  function PrecisionText(a: Amount): string { if a.Absent? then "" else "." + AmountText(a) }

  // A directive up to its conversion character.
  function PartsText(p: Piece): string
    requires p.Dir?
  {
    "%" + (p.flags + (AmountText(p.width) + (PrecisionText(p.precision) + Repeat('l', p.longs))))
  }

  function PieceText(p: Piece): string {
    match p
    case Lit(c) => [c]
    case Dir(_, _, _, _, conv) => PartsText(p) + [conv]
  }

  function FormatText(ps: seq<Piece>): string { if ps == [] then "" else PieceText(ps[0]) + FormatText(ps[1..]) }

  function AllFlags(flags: string, f: Flags): Flags {
    if flags == "" then f else AllFlags(flags[1..], AddFlag(f, flags[0]))
  }

  predicate TooBig(a: Amount) { a.Written? && Value(a.digits, 10) > INT_MAX }

  // The settings of a directive: a starred width takes the first argument, a starred precision the next.
  function Settings(p: Piece, args: seq<Arg>): Option<Spec>
    requires p.Dir?
  {
    var f := AllFlags(p.flags, NO_FLAGS);
    var starW, starP := p.width.Starred?, p.precision.Starred?;
    var used := (if starW then 1 else 0) + if starP then 1 else 0;
    if |args| < used || (starW && (!args[0].Num? || AsInt(args[0].v) == -INT_MAX - 1)) || (starP && !args[used - 1].Num?) then None
    else if TooBig(p.width) || TooBig(p.precision) then None
    else
      var w := match p.width case Absent => 0 case Written(d) => Value(d, 10) case Starred => AsInt(args[0].v);
      var precision := match p.precision case Absent => -1 case Written(d) => Value(d, 10) case Starred => AsInt(args[used - 1].v);
      Some(Spec(if w < 0 then f.(left := true) else f, Abs(w), precision, p.longs > 0, [p.conv], args[used..]))
  }

  function Meaning(ps: seq<Piece>, args: seq<Arg>): Option<Rendered> {
    if ps == [] then Some(Rendered("", args))
    else if ps[0].Lit? then Prepend([ps[0].c], Meaning(ps[1..], args))
    else
      match Settings(ps[0], args)
      case None => None
      case Some(p) =>
        match Convert(p, ps[0].conv)
        case None => None
        case Some(c) => Prepend(c.text, Meaning(ps[1..], c.args))
  }

  lemma {:induction false} ScanFlagsOf(flags: string, r: string, f: Flags)
    requires (forall c :: c in flags ==> IsFlag(c)) && !IsFlag(Peek(r))
    ensures ScanFlags(flags + r, f) == (AllFlags(flags, f), r)
  {
    if flags == "" {
      assert flags + r == r;
    } else {
      assert (flags + r)[1..] == flags[1..] + r;
      assert flags[0] in flags;
      ScanFlagsOf(flags[1..], r, AddFlag(f, flags[0]));
    }
  }

  lemma {:induction false} ScanNumberAppend(s: string, t: string, acc: nat)
    requires forall i :: 0 <= i < |s| ==> IsDecimal(s[i])
    ensures ScanNumber(s + t, acc) == ScanNumber(t, ScanNumber(s, acc).0)
  {
    if s == "" {
      assert s + t == t;
    } else {
      assert (s + t)[1..] == s[1..] + t;
      ScanNumberAppend(s[1..], t, acc * 10 + DigitValue(s[0]));
    }
  }

  lemma {:induction false} ScanNumberIsValue(s: string)
    requires forall i :: 0 <= i < |s| ==> IsDecimal(s[i])
    ensures ScanNumber(s, 0) == (Value(s, 10), "")
  {
    if s != "" {
      var n := |s| - 1;
      ScanNumberIsValue(s[..n]);
      assert s == s[..n] + [s[n]];
      ScanNumberAppend(s[..n], [s[n]], 0);
      assert [s[n]][1..] == "";
    }
  }

  // Decimal digits scan to their value, up to the first character that is no digit.
  lemma ScanDigits(d: string, r: string)
    requires AllDecimal(d) && !IsDecimal(Peek(r))
    ensures ScanNumber(d + r, 0) == (Value(d, 10), r)
  {
    ScanNumberAppend(d, r, 0);
    ScanNumberIsValue(d);
  }

  // A printed number scans back.
  lemma {:induction false} ScanNumberOf(n: nat, r: string)
    requires !IsDecimal(Peek(r))
    ensures ScanNumber(Digits(n, 10) + r, 0) == (n, r)
  {
    ScanDigits(Digits(n, 10), r);
    DigitsReadBack(n, 10);
  }

  lemma {:induction false} ScanLongsOf(n: nat, r: string, long: bool)
    requires Peek(r) != 'l'
    ensures ScanLongs(Repeat('l', n) + r, long) == (long || n > 0, r)
  {
    if n == 0 {
      assert Repeat('l', 0) + r == r;
    } else {
      assert (Repeat('l', n) + r)[1..] == Repeat('l', n - 1) + r;
      ScanLongsOf(n - 1, r, true);
    }
  }

  // The scanner recovers a directive's settings from its text.
  lemma WidthOf(a: Amount, f: Flags, r: string, args: seq<Arg>)
    requires a.Written? ==> AllDecimal(a.digits) && a.digits != "" && !IsDecimal(Peek(r))
    requires a.Absent? ==> !IsDecimal(Peek(r)) && Peek(r) != '*'
    ensures
      var scanned := ScanWidth(f, AmountText(a) + r, args);
      match a
      case Absent => scanned == Some(Spec(f, 0, -1, false, r, args))
      case Written(d) => scanned == if Value(d, 10) > INT_MAX then None else Some(Spec(f, Value(d, 10), -1, false, r, args))
      case Starred =>
        if args == [] || !args[0].Num? || AsInt(args[0].v) == -INT_MAX - 1 then scanned == None
        else scanned == Some(Spec(if AsInt(args[0].v) < 0 then f.(left := true) else f, Abs(AsInt(args[0].v)), -1, false, r, args[1..]))
  {
    hide AsInt, Value;
    match a
    case Absent => assert "" + r == r;
    case Written(d) =>
      ScanDigits(d, r);
      assert IsDecimal(d[0]) && (d + r)[0] == d[0];
    case Starred => assert ("*" + r)[1..] == r;
  }

  lemma PrecisionOf(a: Amount, w: Spec, r: string)
    requires a.Written? ==> AllDecimal(a.digits) && !IsDecimal(Peek(r)) && (a.digits == "" ==> Peek(r) != '*')
    requires a.Absent? ==> Peek(r) != '.'
    requires w.rest == PrecisionText(a) + r
    ensures
      match a
      case Absent => ScanPrecision(w) == Some(w.(rest := r))
      case Written(d) => ScanPrecision(w) == if Value(d, 10) > INT_MAX then None else Some(w.(precision := Value(d, 10), rest := r))
      case Starred =>
        if w.args == [] || !w.args[0].Num? then ScanPrecision(w) == None
        else ScanPrecision(w) == Some(w.(precision := AsInt(w.args[0].v), rest := r, args := w.args[1..]))
  {
    hide AsInt, Value;
    match a
    case Absent => assert w.rest == r;
    case Written(d) =>
      assert w.rest[1..] == d + r;
      ScanDigits(d, r);
      if d == "" { assert d + r == r; } else { assert IsDecimal(d[0]) && (d + r)[0] == d[0]; }
    case Starred =>
      assert w.rest[1..] == "*" + r && w.rest[2..] == r;
  }

  // No part of a directive starts with a character the part before it would have taken.
  // The character each part of a directive starts with.
  lemma Peeks(p: Piece, end: string)
    requires GoodParts(p)
    ensures
      var longs := Repeat('l', p.longs) + end;
      var prec := PrecisionText(p.precision) + longs;
      var width := AmountText(p.width) + prec;
      && Peek(longs) == (if p.longs > 0 then 'l' else Peek(end))
      && Peek(prec) == (if p.precision.Absent? then Peek(longs) else '.')
      && Peek(width) == match p.width case Absent => Peek(prec) case Written(d) => d[0] case Starred => '*'
  {
    var longs := Repeat('l', p.longs) + end;
    var prec := PrecisionText(p.precision) + longs;
    if p.precision.Absent? { assert prec == longs; }
    if p.width.Absent? { assert AmountText(p.width) + prec == prec; }
  }

  lemma PeekFacts(p: Piece, end: string)
    requires GoodParts(p) && (end != "" ==> EndsParts(p, end[0]))
    ensures
      var longs := Repeat('l', p.longs) + end;
      var prec := PrecisionText(p.precision) + longs;
      var width := AmountText(p.width) + prec;
      && Peek(end) != 'l'
      && (p.precision.Written? ==> !IsDecimal(Peek(longs)) && (p.precision.digits == "" ==> Peek(longs) != '*'))
      && (p.precision.Absent? ==> Peek(longs) != '.')
      && (p.width.Written? ==> !IsDecimal(Peek(prec)))
      && (p.width.Absent? ==> !IsDecimal(Peek(prec)) && Peek(prec) != '*')
      && !IsFlag(Peek(width))
  {
    hide Repeat, PrecisionText, AmountText;
    Peeks(p, end);
  }

  lemma Regrouped(p: Piece, end: string)
    requires p.Dir?
    ensures PartsText(p) + end ==
            "%" + (p.flags + (AmountText(p.width) + (PrecisionText(p.precision) + (Repeat('l', p.longs) + end))))
  {
    hide AmountText, PrecisionText, Repeat;
  }

  // The scan of a directive's text finds its settings and stops at what follows its parts.
  lemma {:induction false} ScanPartsOf(p: Piece, end: string, args: seq<Arg>)
    requires GoodParts(p) && (end != "" ==> EndsParts(p, end[0]))
    ensures
      var scanned := ScanSpec((PartsText(p) + end)[1..], args);
      && PartsText(p)[0] == '%'
      && match Settings(p, args)
         case None => scanned == None
         case Some(w) => scanned == Some(w.(rest := end))
  {
    hide ScanFlags, ScanWidth, ScanPrecision, ScanLongs, AllFlags, AsInt, AmountText, PrecisionText, Repeat, Value, EndsParts;
    var longs := Repeat('l', p.longs) + end;
    var prec := PrecisionText(p.precision) + longs;
    var width := AmountText(p.width) + prec;
    Regrouped(p, end);
    assert ("%" + (p.flags + width))[1..] == p.flags + width;
    PeekFacts(p, end);
    ScanFlagsOf(p.flags, width, NO_FLAGS);
    var f := AllFlags(p.flags, NO_FLAGS);
    WidthOf(p.width, f, prec, args);
    if ScanWidth(f, width, args).Some? {
      PrecisionOf(p.precision, ScanWidth(f, width, args).value, longs);
      ScanLongsOf(p.longs, end, false);
    }
  }

  lemma {:induction false} ScanSpecOf(p: Piece, tail: string, args: seq<Arg>)
    requires p.Dir? && WellFormed(p)
    ensures
      var scanned := ScanSpec((PieceText(p) + tail)[1..], args);
      && |PieceText(p)| > 0 && PieceText(p)[0] == '%'
      && match Settings(p, args)
         case None => scanned == None
         case Some(w) => scanned == Some(w.(rest := [p.conv] + tail))
  {
    hide ScanSpec, Settings, PartsText, EndsParts, GoodParts;
    ScanPartsOf(p, [p.conv] + tail, args);
    assert PieceText(p) + tail == PartsText(p) + ([p.conv] + tail);
    PartsStart(p);
  }

  lemma PartsStart(p: Piece)
    requires p.Dir?
    ensures |PartsText(p)| > 0 && PartsText(p)[0] == '%'
  {
  }

  // A conversion does not look at what follows it.
  lemma ConvertAlone(w: Spec, rest: string, conv: char)
    ensures Convert(w.(rest := rest), conv) == Convert(w, conv)
  {
    hide UintField, PtrField, CharField, IntField, StrField, AsUlong, AsLong, AsUint, AsInt;
  }

  lemma RenderDirective(p: Piece, tail: string, args: seq<Arg>)
    requires p.Dir? && WellFormed(p)
    ensures
      Render(PieceText(p) + tail, args) ==
      match Settings(p, args)
      case None => None
      case Some(w) =>
        match Convert(w, p.conv)
        case None => None
        case Some(c) => Prepend(c.text, Render(tail, c.args))
  {
    hide ScanSpec, Settings, Convert, WellFormed, PieceText, Prepend;
    ScanSpecOf(p, tail, args);
    var s := PieceText(p) + tail;
    assert s[0] == '%';
    if Settings(p, args).Some? {
      ConvertAlone(Settings(p, args).value, [p.conv] + tail, p.conv);
      assert ([p.conv] + tail)[1..] == tail;
    }
  }

  // Pieces render their meaning and leave the text behind them to the arguments they left over.
  lemma {:induction false} RenderThen(ps: seq<Piece>, tail: string, args: seq<Arg>)
    requires forall p :: p in ps ==> WellFormed(p)
    ensures
      Render(FormatText(ps) + tail, args) ==
      match Meaning(ps, args)
      case None => None
      case Some(r) => Prepend(r.text, Render(tail, r.args))
    decreases |ps|
  {
    hide Settings, Convert, WellFormed, PartsText;
    if ps == [] {
      assert FormatText(ps) + tail == tail;
      PrependNothing(Render(tail, args));
    } else {
      var p, rest := ps[0], FormatText(ps[1..]) + tail;
      assert p in ps;
      assert FormatText(ps) + tail == PieceText(p) + rest;
      if p.Lit? {
        LitIsNoPercent(p);
        assert ([p.c] + rest)[1..] == rest;
        RenderThen(ps[1..], tail, args);
        PrependTwice([p.c], Meaning(ps[1..], args), tail);
      } else {
        RenderDirective(p, rest, args);
        if Settings(p, args).Some? {
          var c := Convert(Settings(p, args).value, p.conv);
          if c.Some? {
            RenderThen(ps[1..], tail, c.value.args);
            PrependTwice(c.value.text, Meaning(ps[1..], c.value.args), tail);
          }
        }
      }
    }
  }

  lemma LitIsNoPercent(p: Piece)
    requires p.Lit? && WellFormed(p)
    ensures p.c != '%'
  {
  }

  lemma PrependNothing(r: Option<Rendered>)
    ensures Prepend("", r) == r
  {
    if r.Some? { assert "" + r.value.text == r.value.text; }
  }

  lemma PrependTwice(t: string, m: Option<Rendered>, tail: string)
    ensures m.Some? ==>
      Prepend(t, Prepend(m.value.text, Render(tail, m.value.args))) == Prepend(t + m.value.text, Render(tail, m.value.args))
  {
    hide Render;
    if m.Some? && Render(tail, m.value.args).Some? {
      var x := Render(tail, m.value.args).value.text;
      assert t + (m.value.text + x) == t + m.value.text + x;
    }
  }

  // Scanning a format's text gives its structural meaning: every directive takes exactly the
  // arguments it names, whatever surrounds it.
  lemma {:induction false} RenderIsMeaning(ps: seq<Piece>, args: seq<Arg>)
    requires forall p :: p in ps ==> WellFormed(p)
    ensures Render(FormatText(ps), args) == Meaning(ps, args)
  {
    hide Meaning, WellFormed, FormatText;
    RenderThen(ps, "", args);
    assert FormatText(ps) + "" == FormatText(ps);
    if Meaning(ps, args).Some? {
      var t := Meaning(ps, args).value.text;
      assert t + "" == t;
    }
  }

  // A whole format: pieces, and possibly a directive the text ends inside of.
  datatype Format = Format(pieces: seq<Piece>, open: Option<Piece>)

  ghost predicate GoodFormat(f: Format) {
    (forall p :: p in f.pieces ==> WellFormed(p)) && (f.open.Some? ==> GoodParts(f.open.value))
  }

  function Text(f: Format): string
    requires f.open.Some? ==> f.open.value.Dir?
  {
    FormatText(f.pieces) + if f.open.None? then "" else PartsText(f.open.value)
  }

  // An open directive prints nothing but takes the arguments of its stars.
  function FormatMeaning(f: Format, args: seq<Arg>): Option<Rendered>
    requires f.open.Some? ==> f.open.value.Dir?
  {
    match Meaning(f.pieces, args)
    case None => None
    case Some(r) =>
      if f.open.None? then Some(r)
      else
        match Settings(f.open.value, r.args)
        case None => None
        case Some(w) => Some(Rendered(r.text, w.args))
  }

  lemma {:induction false} RenderIsFormatMeaning(f: Format, args: seq<Arg>)
    requires GoodFormat(f)
    ensures Render(Text(f), args) == FormatMeaning(f, args)
  {
    hide Meaning, WellFormed, FormatText, PartsText, Settings, GoodParts;
    if f.open.None? {
      RenderIsMeaning(f.pieces, args);
      assert FormatText(f.pieces) + "" == FormatText(f.pieces);
    } else {
      var p := f.open.value;
      OpenIsDirective(p);
      RenderThen(f.pieces, PartsText(p), args);
      if Meaning(f.pieces, args).Some? {
        var r := Meaning(f.pieces, args).value;
        RenderOpen(p, r.args);
        assert r.text + "" == r.text;
      }
    }
  }

  lemma RenderOpen(p: Piece, args: seq<Arg>)
    requires GoodParts(p)
    ensures
      Render(PartsText(p), args) ==
      match Settings(p, args)
      case None => None
      case Some(w) => Some(Rendered("", w.args))
  {
    hide ScanSpec, Settings, PartsText, Convert, GoodParts;
    assert p.Dir? by { OpenIsDirective(p); }
    ScanPartsOf(p, "", args);
    PartsStart(p);
    assert PartsText(p) + "" == PartsText(p);
  }

  lemma OpenIsDirective(p: Piece)
    requires GoodParts(p)
    ensures p.Dir?
  {
  }

  // ---------------------------------------------------------------------------
  // Every text is the text of a format
  // ---------------------------------------------------------------------------

  // The longest prefix of characters in a class.
  function Leading(s: string, f: char -> bool): (n: nat)
    ensures n <= |s| && (forall i :: 0 <= i < n ==> f(s[i])) && (n < |s| ==> !f(s[n]))
  {
    if s == "" || !f(s[0]) then 0 else 1 + Leading(s[1..], f)
  }

  lemma AllEll(s: string)
    requires forall i :: 0 <= i < |s| ==> s[i] == 'l'
    ensures s == Repeat('l', |s|)
  {
  }

  // A precision and the text behind it.
  lemma SplitPrecision(t: string) returns (a: Amount, rest: string)
    ensures t == PrecisionText(a) + rest
    ensures a.Written? ==> AllDecimal(a.digits) && !IsDecimal(Peek(rest)) && (a.digits == "" ==> Peek(rest) != '*')
    ensures a.Absent? ==> Peek(rest) != '.'
  {
    if Peek(t) != '.' {
      a, rest := Absent, t;
    } else if Peek(t[1..]) == '*' {
      a, rest := Starred, t[2..];
      assert t == "." + "*" + rest;
    } else {
      var n := Leading(t[1..], IsDecimal);
      a, rest := Written(t[1..][..n]), t[1..][n..];
      assert t == "." + a.digits + rest;
      if a.digits == "" { assert rest == t[1..]; }
    }
  }

  // A width and the text behind it.
  lemma SplitWidth(t: string) returns (a: Amount, rest: string)
    requires Peek(t) != '0'
    ensures t == AmountText(a) + rest
    ensures a.Written? ==> a.digits != "" && AllDecimal(a.digits) && a.digits[0] != '0' && !IsDecimal(Peek(rest))
    ensures a.Absent? ==> rest == t && !IsDecimal(Peek(t)) && Peek(t) != '*'
  {
    if Peek(t) == '*' {
      a, rest := Starred, t[1..];
    } else {
      var n := Leading(t, IsDecimal);
      a, rest := if n == 0 then Absent else Written(t[..n]), t[n..];
    }
  }

  // The length modifiers and the text behind them.
  lemma SplitLongs(t: string) returns (m: nat, rest: string)
    ensures t == Repeat('l', m) + rest && Peek(rest) != 'l' && (m == 0 ==> rest == t)
  {
    m := Leading(t, c => c == 'l');
    AllEll(t[..m]);
    rest := t[m..];
  }

  // What may follow a precision and length modifiers.
  lemma SplitTail(t: string) returns (q: Amount, m: nat, rest: string)
    ensures t == PrecisionText(q) + (Repeat('l', m) + rest) && Peek(rest) != 'l'
    ensures q.Written? ==> AllDecimal(q.digits)
    ensures m == 0 && q.Written? ==> !IsDecimal(Peek(rest)) && (q.digits == "" ==> Peek(rest) != '*')
    ensures m == 0 && q.Absent? ==> Peek(rest) != '.' && rest == t
  {
    hide Repeat;
    var after;
    q, after := SplitPrecision(t);
    m, rest := SplitLongs(after);
    if q.Absent? { NoPrecision(q, after); }
  }

  lemma NoPrecision(q: Amount, r: string)
    requires q.Absent?
    ensures PrecisionText(q) + r == r
  {
  }

  // The text behind a '%': a directive's parts, and what ends them.
  lemma SplitParts(t: string) returns (p: Piece, rest: string)
    ensures GoodParts(p) && "%" + t == PartsText(p) + rest && (rest != "" ==> EndsParts(p, rest[0]))
  {
    hide Repeat, PrecisionText, AmountText;
    var n := Leading(t, IsFlag);
    var afterFlags := t[n..];
    assert t == t[..n] + afterFlags;
    assert afterFlags != "" ==> afterFlags[0] == t[n];
    var w, afterWidth := SplitWidth(afterFlags);
    var q, m, r := SplitTail(afterWidth);
    rest := r;
    p := Dir(t[..n], w, q, m, 'd');
    Regrouped(p, rest);
  }

  // Any format string is made of pieces, so its rendering is always the meaning of a format.
  lemma {:induction false} EveryTextIsAFormat(s: string) returns (f: Format)
    ensures GoodFormat(f) && (f.open.Some? ==> f.open.value.Dir?) && Text(f) == s
    decreases |s|
  {
    hide PartsText, EndsParts, GoodParts;
    if s == "" {
      f := Format([], None);
    } else if s[0] != '%' {
      var g := EveryTextIsAFormat(s[1..]);
      f := Format([Lit(s[0])] + g.pieces, g.open);
      ConsText(Lit(s[0]), g);
    } else {
      var p, rest := SplitParts(s[1..]);
      OpenIsDirective(p);
      assert s == "%" + s[1..] == PartsText(p) + rest;
      if rest == "" {
        f := Format([], Some(p));
      } else {
        var q := p.(conv := rest[0]);
        SameParts(p, rest[0]);
        PartsStart(p);
        var g := EveryTextIsAFormat(rest[1..]);
        f := Format([q] + g.pieces, g.open);
        ConsText(q, g);
        assert rest == [rest[0]] + rest[1..];
      }
    }
  }

  lemma SameParts(p: Piece, c: char)
    requires GoodParts(p) && p.Dir? && EndsParts(p, c)
    ensures PartsText(p.(conv := c)) == PartsText(p) && WellFormed(p.(conv := c))
  {
  }

  lemma ConsText(p: Piece, g: Format)
    requires g.open.Some? ==> g.open.value.Dir?
    ensures Text(Format([p] + g.pieces, g.open)) == PieceText(p) + Text(g)
  {
    hide PieceText, PartsText;
    assert ([p] + g.pieces)[1..] == g.pieces;
  }

  // ---------------------------------------------------------------------------
  // Fields read back
  // ---------------------------------------------------------------------------

  function DigitPrefix(s: string, base: nat): string {
    if s != "" && IsDigit(s[0], base) then [s[0]] + DigitPrefix(s[1..], base) else ""
  }

  // A reader of number fields: skip spaces, take a sign, read digits.
  function ReadNumber(s: string, base: nat): int {
    if s == "" then 0
    else if s[0] == ' ' then ReadNumber(s[1..], base)
    else if s[0] == '-' then 0 - Value(DigitPrefix(s[1..], base), base)
    else if s[0] == '+' then Value(DigitPrefix(s[1..], base), base)
    else Value(DigitPrefix(s, base), base)
  }

  lemma {:induction false} DigitPrefixOf(d: string, n: int, base: nat)
    requires forall i :: 0 <= i < |d| ==> IsDigit(d[i], base)
    ensures DigitPrefix(d + Repeat(' ', n), base) == d
  {
    var s := d + Repeat(' ', n);
    if d != "" {
      assert s[1..] == d[1..] + Repeat(' ', n);
      DigitPrefixOf(d[1..], n, base);
    }
  }

  lemma {:induction false} SpacesSkipped(n: int, s: string, base: nat)
    ensures ReadNumber(Repeat(' ', n) + s, base) == ReadNumber(s, base)
  {
    if n <= 0 {
      assert Repeat(' ', n) + s == s;
    } else {
      assert (Repeat(' ', n) + s)[1..] == Repeat(' ', n - 1) + s;
      SpacesSkipped(n - 1, s, base);
    }
  }

  lemma DigitsReadFirst(d: string, after: int, base: nat)
    requires d != "" && forall i :: 0 <= i < |d| ==> IsDigit(d[i], base)
    ensures DigitPrefix(d + Repeat(' ', after), base) == d
    ensures ReadNumber(d + Repeat(' ', after), base) == Value(d, base)
  {
    DigitPrefixOf(d, after, base);
    assert IsDigit(d[0], base) && (d + Repeat(' ', after))[0] == d[0];
  }

  // Sign, zeros, digits and trailing spaces read as the signed number.
  lemma {:induction false} BodyReadsBack(sign: string, zeros: int, v: nat, base: nat, after: int)
    requires IsBase(base) && sign in {"", "+", "-", " "}
    ensures ReadNumber(sign + (Repeat('0', zeros) + Digits(v, base)) + Repeat(' ', after), base) ==
            if sign == "-" then 0 - v else v
  {
    hide Value, Digits, DigitPrefix;
    var d := Repeat('0', zeros) + Digits(v, base);
    ZerosReadAsNothing(zeros, Digits(v, base), base);
    DigitsReadBack(v, base);
    DigitsReadFirst(d, after, base);
    var t := d + Repeat(' ', after);
    var s := sign + d + Repeat(' ', after);
    if sign == "" {
      assert s == t;
    } else {
      assert s[1..] == t && s[0] == sign[0];
    }
  }

  predicate FieldHasWidth(field: string, width: int, body: nat) { |field| == if width > body then width else body }

  // Every signed value, the most negative one included, reads back from its field.
  lemma {:induction false} IntFieldReadsBack(v: int, width: int, f: Flags)
    ensures ReadNumber(IntField(v, width, f), 10) == v
    ensures FieldHasWidth(IntField(v, width, f), width, |Sign(v, f)| + |Digits(Abs(v), 10)|)
  {
    hide ReadNumber, Digits;
    var sign, digits := Sign(v, f), Digits(Abs(v), 10);
    var pad := width - |sign| - |digits|;
    assert Repeat('0', 0) + digits == digits;
    if f.zero && !f.left {
      BodyReadsBack(sign, pad, Abs(v), 10, 0);
      assert IntField(v, width, f) == sign + (Repeat('0', pad) + digits) + Repeat(' ', 0);
    } else if f.left {
      BodyReadsBack(sign, 0, Abs(v), 10, pad);
      assert IntField(v, width, f) == sign + (Repeat('0', 0) + digits) + Repeat(' ', pad);
    } else {
      BodyReadsBack(sign, 0, Abs(v), 10, 0);
      SpacesSkipped(pad, sign + digits, 10);
      assert sign + digits == sign + (Repeat('0', 0) + digits) + Repeat(' ', 0);
    }
  }

  lemma {:induction false} UintFieldReadsBack(v: nat, base: nat, width: int, f: Flags)
    requires IsBase(base)
    ensures ReadNumber(UintField(v, base, width, f), base) == v
    ensures FieldHasWidth(UintField(v, base, width, f), width, |Digits(v, base)|)
  {
    hide ReadNumber, Digits;
    var digits := Digits(v, base);
    var pad := width - |digits|;
    assert Repeat('0', 0) + digits == digits;
    if f.zero && !f.left {
      BodyReadsBack("", pad, v, base, 0);
      assert UintField(v, base, width, f) == "" + (Repeat('0', pad) + digits) + Repeat(' ', 0);
    } else if f.left {
      BodyReadsBack("", 0, v, base, pad);
      assert UintField(v, base, width, f) == "" + (Repeat('0', 0) + digits) + Repeat(' ', pad);
    } else {
      BodyReadsBack("", 0, v, base, 0);
      SpacesSkipped(pad, digits, base);
      assert digits == "" + (Repeat('0', 0) + digits) + Repeat(' ', 0);
    }
  }
}
